/** The pixel-mask walk restated as an explicit stack-driven depth-first
    traversal, proved to produce the same mask as the recursive walk. */
module PixelWorklist {
  import opened PixelCollider

  /** The masks of a list of hierarchies, concatenated in order. */
  function PreOrderAll(ts: seq<Part>, pixelOf: Placement -> Pixel): seq<Pixel>
    decreases |ts|
  {
    if |ts| == 0 then [] else PreOrder(ts[0], pixelOf) + PreOrderAll(ts[1..], pixelOf)
  }

  /** Number of parts in a hierarchy; it bounds the stack traversal. */
  function Size(t: Part): nat
    decreases t
  {
    1 + SizeAll(t.children)
  }

  function SizeAll(ts: seq<Part>): nat
    decreases ts
  {
    if |ts| == 0 then 0 else Size(ts[0]) + SizeAll(ts[1..])
  }

  lemma {:induction false} PreOrderAllAppend(a: seq<Part>, b: seq<Part>, pixelOf: Placement -> Pixel)
    ensures PreOrderAll(a + b, pixelOf) == PreOrderAll(a, pixelOf) + PreOrderAll(b, pixelOf)
    decreases |a|
  {
    if |a| > 0 {
      assert (a + b)[1..] == a[1..] + b;
      PreOrderAllAppend(a[1..], b, pixelOf);
    } else {
      assert a + b == b;
    }
  }

  lemma {:induction false} SizeAllAppend(a: seq<Part>, b: seq<Part>)
    ensures SizeAll(a + b) == SizeAll(a) + SizeAll(b)
    decreases |a|
  {
    if |a| > 0 {
      assert (a + b)[1..] == a[1..] + b;
      SizeAllAppend(a[1..], b);
    } else {
      assert a + b == b;
    }
  }

  /** The children's masks, as the recursive walk concatenates them. */
  lemma {:induction false} PreOrderAllChildren(t: Part, i: nat, pixelOf: Placement -> Pixel)
    requires i <= |t.children|
    ensures PreOrderAll(t.children[i..], pixelOf) == PreOrderFrom(t, i, pixelOf)
    decreases |t.children| - i
  {
    if i < |t.children| {
      assert t.children[i..][1..] == t.children[i + 1..];
      PreOrderAllChildren(t, i + 1, pixelOf);
    } else {
      assert t.children[i..] == [];
    }
  }

  /** One step of the stack traversal: replacing the top part by its
      children peels off exactly its own pixel, and shrinks the stack. */
  lemma StackStep(stack: seq<Part>, pixelOf: Placement -> Pixel)
    requires |stack| > 0
    ensures PreOrderAll(stack, pixelOf)
         == Own(stack[0], pixelOf) + PreOrderAll(stack[0].children + stack[1..], pixelOf)
    ensures SizeAll(stack[0].children + stack[1..]) < SizeAll(stack)
  {
    var t, rest := stack[0], stack[1..];
    PreOrderAllChildren(t, 0, pixelOf);
    assert t.children[0..] == t.children;
    PreOrderAllAppend(t.children, rest, pixelOf);
    SizeAllAppend(t.children, rest);
  }

  /** Pop the next part, record its own pixel, push its children so that the
      first child is visited next. */
  method RebuildWithStack(root: Part, pixelOf: Placement -> Pixel) returns (pixels: seq<Pixel>)
    ensures pixels == PreOrder(root, pixelOf)
  {
    pixels := [];
    var stack := [root];
    assert PreOrderAll(stack, pixelOf) == PreOrder(root, pixelOf) + PreOrderAll([], pixelOf);
    while |stack| > 0
      invariant pixels + PreOrderAll(stack, pixelOf) == PreOrder(root, pixelOf)
      decreases SizeAll(stack)
    {
      StackStep(stack, pixelOf);
      pixels := pixels + Own(stack[0], pixelOf);
      stack := stack[0].children + stack[1..];
    }
  }
}
