# tunneler-rs core in Dafny

A Dafny model of three pieces of integer logic in tunneler-rs, a small Bevy
game about destructible 2D terrain:

- **`MapData`** (`src/map.rs`) is the terrain occupancy grid. It is a row-major
  vector of `MapDataValue` cells (`Empty`, `Sand`, `Rock`, `Base`, `Wall`) with
  bounds-checked `get`/`set`. Its `Field` adapter gives contour extraction a
  density of 0 for `Empty` cells and 1 for every other cell. `setup_map` fills
  a 500 x 500 grid's square 200..300 x 200..300 with `Sand`.
- **`ImageWriter::put_pixel`** (`src/ImageWriter.rs`) writes one RGBA8 pixel
  into a texture's raw byte buffer. Coordinates outside the texture are
  ignored. An unsupported pixel format panics.
- **`PixelCollider`** (`src/pixelcollider.rs`) is a coarse collision mask. On
  every update it is cleared and rebuilt by a pre-order walk over the entity's
  hierarchy. Each part carrying a bounding box adds one pixel: the box's
  top-left corner, rotated, translated and cast to `i32`.

Modules:

- `Outcomes`: `Option`, `Result` and `Run`. A Rust panic is modelled as a
  value. A read that can panic returns a `Result`. A mutation through
  `&mut self` returns a `Run`: the object's state after the call and a
  `Status` (`Completed` or `Panicked(reason)`).
- `RowMajor`: the layout `x + y * width` shared by the grid and the image,
  with its bounds and injectivity lemmas and its inverse `Coordinates`.
- `MapGrid`: `MapData` and its operations.
- `MapSetup`: the Sand-fill loop of `setup_map`.
- `ImageWriter`: the texture and the two write functions.
- `PixelCollider`: the hierarchy as an inductive `Part` datatype, the walk as
  the program performs it (`Recurse`, which appends to an accumulator), and a
  reference definition (`PreOrder`). A lemma proves the two agree.
- `PixelWorklist`: the same mask built by an explicit stack-driven
  depth-first traversal, proved equal to the reference definition.

## Model

| member | source | states |
|---|---|---|
| MapGrid.Discriminant | src/map.rs:6-14 | Each value's one-byte discriminant is below 5, and it is 0 exactly for `Empty`. |
| MapGrid.DiscriminantInjective | src/map.rs:6-14 | Two values have the same discriminant exactly when they are the same value. |
| MapGrid.New | src/map.rs:48-54 | The grid has the requested width and height and exactly `width*height` cells, and every in-bounds cell is `Empty`. |
| MapGrid.BoundsCheck | src/map.rs:57-61 | Passes exactly when `x < width && y < height`. Otherwise it panics and names the coordinates. |
| MapGrid.Get | src/map.rs:63-68 | Fails with `OutOfBounds(x, y)` exactly when `x >= width or y >= height`. Otherwise it returns the cell stored at `(x, y)`. |
| MapGrid.Set | src/map.rs:70-73 | Panics exactly when `x >= width or y >= height`, and then the grid is unchanged. In every case the dimensions and the one-cell-per-coordinate invariant are kept. |
| MapGrid.GetSetSame | src/map.rs:63-73 | An in-bounds `set(x, y, v)` completes, and a later `get(x, y)` returns `v`. |
| MapGrid.SetFrame | src/map.rs:72 | An in-bounds `set(x, y, v)` makes cell `(x, y)` equal `v` and leaves every other in-bounds cell unchanged. |
| MapGrid.GetSetOther | src/map.rs:63-73 | For any `(i, j) != (x, y)`, in range or not, `get(i, j)` gives the same result before and after `set(x, y, v)`. This covers a failing `set` too. |
| RowMajor.Index | src/map.rs:66 | The linear position `x + y*width` of an in-bounds cell lies in row `y`'s band `[y*width, (y+1)*width)`. |
| RowMajor.IndexInRange | src/map.rs:66 | For `x < width` and `y < height`, the position `x + y*width` is below `width*height`, so the unchecked read stays inside the vector. |
| RowMajor.IndexInjective | src/map.rs:72 | Two in-bounds coordinates with the same linear position are the same coordinate. |
| RowMajor.RowsApart | src/map.rs:66 | A cell on an earlier row comes strictly before every cell on a later row. |
| RowMajor.Coordinates | src/map.rs:66 | The inverse of the layout: `(i % width, i / width)` has `x < width` and maps back to `i`. |
| RowMajor.CoordinatesInBounds | src/map.rs:66 | Every position below `width*height` decodes to a row below `height`. |
| RowMajor.CoordinatesOfIndex | src/map.rs:66 | Decoding the linear position of `(x, y)` gives back `(x, y)`, for every `x < width`. |
| MapGrid.ZAt | src/map.rs:113-118 | Fails exactly out of bounds, because it reads through `get`. In bounds the density is 0.0 exactly when the cell is `Empty` and 1.0 exactly when it is not. |
| MapGrid.Dimensions | src/map.rs:109-111 | `dimensions()` bounds exactly the in-bounds coordinates, and a valid grid holds `d.0 * d.1` cells. |
| MapGrid.FieldDefinedWithinDimensions | src/map.rs:108-119 | The density field is defined exactly at the coordinates below `dimensions()`. |
| MapSetup.SetupMap | src/map.rs:23-30 | The nested loop on a fresh 500 x 500 grid never panics: the ghost status of the first panicking `set` stays `Completed`. Afterwards `get(x, y)` is `Sand` when `200 <= x < 300 && 200 <= y < 300` and `Empty` everywhere else on the grid. |
| ImageWriter.PutPixel | src/ImageWriter.rs:8-20 | Out of bounds the call returns with the image unchanged and no panic, whatever the format. An `UnsupportedFormat` panic happens exactly for in-bounds coordinates in a format other than `Rgba8Unorm`. A panic leaves the image unchanged. Only the bytes can change, never the length or the other fields. |
| ImageWriter.PutPixelRgba8Unorm | src/ImageWriter.rs:22-33 | The window starts at the program's wrapping `u32` offset. If the 4-byte window fits in the buffer, the window becomes the colour's bytes and every other byte is unchanged. Otherwise the slice panics and the image is unchanged. |
| ImageWriter.Splice | src/ImageWriter.rs:30-32 | Writing 4 bytes at `i` keeps the length, puts the bytes at `[i, i+4)` and changes no other byte. |
| ImageWriter.WindowInBuffer | src/ImageWriter.rs:26-30 | In a buffer of `width*height*4` bytes, every in-bounds pixel's window `[(x + y*width)*4, +4)` lies inside the buffer. |
| ImageWriter.PutPixelWrites | src/ImageWriter.rs:12-32 | An in-bounds write to a well-formed `Rgba8Unorm` texture of at most 4 GiB completes and keeps the texture well-formed. The window at the exact offset `(x + y*width)*4` holds the colour's 4 bytes and no byte outside it changes. |
| ImageWriter.ByteAfterWrite | src/ImageWriter.rs:28-32 | After an in-bounds write to a well-formed texture of at most 4 GiB, byte `k` is the colour's byte `k - offset` inside the window and the old byte outside it. |
| ImageWriter.WindowsDisjoint | src/ImageWriter.rs:28 | Distinct in-bounds pixels have disjoint 4-byte windows. |
| ImageWriter.PutPixelIdempotent | src/ImageWriter.rs:8-33 | Writing the same pixel twice with the same colour has the same effect (state and status) as writing it once. This holds for every image, format and coordinate. |
| ImageWriter.PutPixelCommutes | src/ImageWriter.rs:8-33 | In a well-formed `Rgba8Unorm` texture of at most 4 GiB, writes to two different in-bounds pixels give the same image in either order. |
| ImageWriter.ByteOffset32Agrees | src/ImageWriter.rs:28 | For textures of at most 4 GiB, the program's wrapping `u32` offset equals the exact offset for every in-bounds pixel. |
| ImageWriter.ByteOffset32Wraps | src/ImageWriter.rs:28 | Take a 65536 x 16385 texture. Pixel (0, 16384) has exact offset 2^32, but the `u32` offset wraps to 0, which is also pixel (0, 0)'s offset. |
| ImageWriter.PutPixelCommutesFailsPast4GiB | src/ImageWriter.rs:8-33 | In a zeroed 65536 x 16385 `Rgba8Unorm` texture, writing (0, 0) then (0, 16384) leaves the second colour in byte 0, and the other order leaves the first: past 4 GiB the program's writes do not commute. |
| ImageWriter.ByteOffset | src/ImageWriter.rs:28 | The overflow-free offset `(x + y*width)*4`: for `x < width` the pixel's 4-byte window lies inside row `y`'s byte band `[y*width*4, (y+1)*width*4)`. |
| ImageWriter.ByteOffset32 | src/ImageWriter.rs:28 | The offset as line 28 computes it, in `u32`: always a multiple of 4, and equal to the exact offset whenever `x*4 + y*width*4` does not overflow. |
| PixelCollider.TruncToI32 | src/pixelcollider.rs:52 | The float-to-`i32` cast gives a value inside the `i32` range. In range it truncates toward zero (`n <= v < n+1` for non-negative `v`, `n-1 < v <= n` for non-positive `v`). Beyond the range it saturates at the nearer bound. |
| PixelCollider.DeterminePixel | src/pixelcollider.rs:41-53 | Every recorded pixel has both coordinates in the `i32` range. |
| PixelCollider.UnrotatedPixel | src/pixelcollider.rs:46-52 | With the identity rotation, the pixel is translation + `(center.x - half.x, center.y + half.y)`, truncated toward zero. |
| PixelCollider.NewCollider | src/pixelcollider.rs:10-14 | A new collider's pixel list is empty. |
| PixelCollider.Rebuild | src/pixelcollider.rs:60-63 | Clearing and then walking leaves exactly the subtree's pre-order mask, whatever the collider held before. |
| PixelCollider.Recurse | src/pixelcollider.rs:25-39 | One call of `recurse` appends exactly one pixel per part in the subtree that carries a box. |
| PixelCollider.RecurseChildren | src/pixelcollider.rs:34-38 | The loop over children `i..` appends exactly one pixel per box-carrying part among them. |
| PixelCollider.RecurseIsPreOrder | src/pixelcollider.rs:25-39 | The recursive walk appends exactly the subtree's pre-order mask to the list it was given. A part with a box adds its pixel first. A part without a box adds nothing itself, but its children are still walked in order. |
| PixelCollider.RecurseChildrenIsPreOrder | src/pixelcollider.rs:34-38 | The loop over children from `i` onward appends the masks of children `i..` in enumeration order. |
| PixelCollider.RebuildForgetsPrevious | src/pixelcollider.rs:61-63 | Rebuilding any collider gives the same result as rebuilding a fresh one. |
| PixelCollider.PreOrderLength | src/pixelcollider.rs:25-39 | The mask holds exactly one pixel per part that carries a bounding box. |
| PixelCollider.PreOrderFromLength | src/pixelcollider.rs:34-38 | The masks of children `i..` together hold one pixel per box-carrying part among them. |
| PixelCollider.PreOrderFromSplit | src/pixelcollider.rs:34-38 | Around any child `j`, the children's masks are: the earlier children's masks, then child `j`'s whole mask as one block, then the later children's. |
| PixelCollider.MaskLayout | src/pixelcollider.rs:31-38 | For every child `j`, a part's mask is its own pixel (if it has a box), then the earlier children's masks, then child `j`'s mask as one contiguous block, then the later children's masks. |
| PixelCollider.MaskStartsWithOwnPixel | src/pixelcollider.rs:31-33 | A part with a box has its own pixel first in its mask, ahead of all its descendants' pixels. |
| PixelCollider.UpdatePixelColliders | src/pixelcollider.rs:55-65 | Every entity with a collider keeps its hierarchy, and its pixel list becomes exactly the pre-order mask of its own hierarchy. |
| PixelWorklist.StackStep | src/pixelcollider.rs:31-38 | Replacing the top of the stack by its children takes off exactly that part's own pixel, and the remaining work strictly shrinks. |
| PixelWorklist.RebuildWithStack | src/pixelcollider.rs:25-39 | An explicit stack traversal (pop a part, record its pixel, push its children first-child-on-top) builds exactly the mask of the recursive walk. |

## Findings

| source | as written | input that shows it | evidently intended | confidence | as-written member | corrected member |
|---|---|---|---|---|---|---|
| src/ImageWriter.rs:28 | The byte offset `x*4 + y*width*4` is computed in `u32`. It wraps modulo 2^32 (a build with overflow checks panics instead). | A 65536 x 16385 `Rgba8Unorm` texture and pixel (0, 16384). The exact offset is 2^32, but the computed offset is 0, so the write lands on pixel (0, 0). | Compute the offset in `usize` as `(x + y*width)*4`. Distinct pixels then get disjoint windows inside the buffer. | low, not executed; needs a texture of more than 4 GiB | ImageWriter.PutPixelCommutesFailsPast4GiB | ImageWriter.WindowsDisjoint |

`ImageWriter.PutPixelRgba8Unorm` writes at the program's offset
`ImageWriter.ByteOffset32`. The corrected offset is `ImageWriter.ByteOffset`.
`ImageWriter.ByteOffset32Agrees` shows the two agree on every texture of at
most 4 GiB, and the write lemmas are stated for those textures.

## Left out

- `MapData::to_paths`, `march`, `simplify` and the lyon path and shape types (`src/map.rs:32-44`, `src/map.rs:75-105`) call external crates that are not part of this model. `to_paths` needs each simplified contour to be non-empty (`unwrap` at `src/map.rs:86`), and `setup_map` needs at least one path (`paths[0]` at `src/map.rs:36`). Neither requirement is modelled. `MapSetup.SetupMap` stops at the grid that is handed to `to_paths`.
- MapGrid.New: allocation failure, and `usize` overflow of `width * height`, are not modelled. Sizes are unbounded naturals.
- ImageWriter.PutPixelRgba8Unorm: the `u32` offset wraps as in a release build. A build with overflow checks panics at that point instead, and that panic is not modelled.
- ImageWriter.PutPixelWrites: stated only for textures of at most 4 GiB. Past that size the write lands at the wrapped offset, not at `(x + y*width)*4`.
- ImageWriter.ByteAfterWrite: stated only for textures of at most 4 GiB, for the same reason.
- ImageWriter.PutPixelCommutes: stated only for textures of at most 4 GiB. Past that size two pixels can share a window, and then the writes do not commute (`ImageWriter.PutPixelCommutesFailsPast4GiB`).
- PixelCollider.DeterminePixel: the float arithmetic is exact real arithmetic, not `f32` with rounding. Quaternion rotation (`mul_vec3`) and `GlobalTransform::compute_transform` are engine internals, so they are a caller-supplied function `rotate` and a stored `Transform`. Only the identity-rotation case is stated exactly. Reals have no NaN or infinities, so the cast's NaN-to-0 rule and its clamping of ±infinity to the `i32` bounds are not modelled.
- The ECS queries in `recurse` and `update_pixel_colliders` are modelled as an inductive hierarchy. A part has a `placement` exactly when the `(Aabb, GlobalTransform)` query succeeds for it. An absent `Children` component is an empty child list. The world is a sequence of entities that carry colliders. Entity ids, and graphs that are not trees, are not represented.
- `Color::as_rgba_u8` is not part of this model. A colour is given as its four RGBA bytes (`Rgba`).
- Texture fields other than width, height, format and data (depth, mip levels, etc.) are not modelled. Every format other than `Rgba8Unorm` is represented by `OtherFormat(name)`.
- Terrain chunks, drag-path sampling and a bulk grid `fill` are not part of `src/map.rs`, `src/ImageWriter.rs` or `src/pixelcollider.rs`, and are not modelled.
- `src/map_pixels.rs`, `src/player.rs`, `src/bullet.rs`, `src/physics.rs`, `src/mouse.rs` and `src/main.rs` are asset and event plumbing, input handling and float physics. They are not part of this model.
