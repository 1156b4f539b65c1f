# Heightmap terrain generator

This project models `generateTerrain` in Dafny and proves properties of the model. `generateTerrain` is the heightmap-to-mesh builder of the Ionic/Angular three.js demo. It takes a canvas `ImageData`: `width * height` pixels, four bytes R, G, B, A per pixel, stored row after row. From it, the code builds the three arrays that a `BufferGeometry` is made of:

- `vertices` holds three numbers per pixel (x, z) in row-major order. They are `x - width/2`, `5 * red/255` and `z - height/2`, where red is the byte at `x * 4 + z * width * 4`.
- `colors` holds four numbers per pixel: one of three fixed RGB band colours, picked by thresholds 0.5 and 0.8 on `red/255`, followed by alpha 1.
- `indices` holds six numbers per grid cell, in row-major order of the cells. For a cell whose top-left vertex is i, they are the triangles (i, i + width, i + 1) and (i + 1, i + width, i + 1 + width).

The repository carries two copies of the function, whose data-building parts are identical:

- `src/app/threejs-demo/threejs-demo.component.ts`, lines 100-138;
- `src/app/components/threejs-demo/threejs-demo.component.ts`, lines 79-117.

In those parts the second copy is the first one shifted up 21 lines, line for line; the two differ only in what they do with the finished arrays. Both copies share one model, and the table below cites the first copy: line n of the first copy corresponds to line n - 21 of the second.

The model has six modules:

- `TerrainGenerator` (terrain.dfy) holds the code itself, as methods with the two nested loop pairs of the source. `BuildVertexBuffers` is the loop over z and x, and `BuildIndexBuffer` is the loop over j and i. `GenerateTerrain` runs the two in order.
  - Each method is proved to produce exactly a specification function of its input: `Positions`, `Colors` and `Indices`.
- `VertexBuffers` (vertices.dfy) and `TriangleIndices` (triangle indices, indices.dfy) define those functions. Each is a grid of per-pixel or per-cell records, written out in row-major order.
  - They also hold the loop-invariant predicates and the lemmas that state what the buffers contain.
- `RowMajor` (rowmajor.dfy) holds the row-major layout shared by the three buffers. It defines `Flatten` of a grid and proves where slot c of record (x, z) lands. It also holds the integer facts about `z * width + x`.
- `Image` (image.dfy) models the `ImageData`, the read index and the red byte.
- `Bands` (bands.dfy) holds the elevation, the height, the three band colours and the threshold chain.

JavaScript numbers are modelled as exact reals, and indices as unbounded integers. The index loop bounds `height - 1` and `offset + width - 1` are computed on `int`, as in JavaScript, so an empty image gives no iterations and no error.

## Model

| member | source | states |
|---|---|---|
| TerrainGenerator.GenerateTerrain | src/app/threejs-demo/threejs-demo.component.ts:100-138 | Given a valid image, returns exactly the vertex, colour and index buffers defined by `Positions`, `Colors` and `Indices`. They hold 3·w·h, 4·w·h and 6·(w−1)·(h−1) numbers (no cells when w or h is 0). |
| TerrainGenerator.BuildVertexBuffers | src/app/threejs-demo/threejs-demo.component.ts:104-123 | The z/x loops push exactly `Positions(img)` and `Colors(img)`, that is 3·w·h and 4·w·h numbers. The loop invariant is that the buffers hold the first z rows and the first x pixels of row z. |
| TerrainGenerator.BuildIndexBuffer | src/app/threejs-demo/threejs-demo.component.ts:125-138 | The j/i loops push exactly `Indices(width, height)`, that is 6·CellCols·CellRows numbers. The loop invariant is that the buffer holds the first j rows of cells and the first i − offset cells of row j. |
| Image.ReadIndex | src/app/threejs-demo/threejs-demo.component.ts:110 | The offset `x*4 + z*width*4` at which pixel (x, z) is read; it is 4·(z·width + x), four bytes per pixel in row-major order. |
| Image.Red | src/app/threejs-demo/threejs-demo.component.ts:110-111 | The byte `imageData.data[index]`: it lies inside `data` and is the first (red) byte of pixel number z·width + x. |
| Image.ReadIndexInBounds | src/app/threejs-demo/threejs-demo.component.ts:110 | The read offset `x*4 + z*width*4` equals `4·(z·width + x)`, the pixel number is below w·h, and all four channels of that pixel lie inside `data`. |
| Image.RedRead | src/app/threejs-demo/threejs-demo.component.ts:110-111 | The byte the loop reads is inside `data` and is pixel (x, z)'s red byte. |
| Bands.Elevation | src/app/threejs-demo/threejs-demo.component.ts:111 | `red/255` lies in [0, 1]. It is 0 exactly for byte 0 and 1 exactly for byte 255. |
| Bands.Height | src/app/threejs-demo/threejs-demo.component.ts:113 | The height `y*5` lies in [0, 5]. |
| Bands.Band | src/app/threejs-demo/threejs-demo.component.ts:115-121 | The if chain always selects one of the three entries of `colorInfos`. |
| Bands.PixelColor | src/app/threejs-demo/threejs-demo.component.ts:115-121 | The four numbers `colors.push(...colorInfos[b], 1)` pushes for a red byte: alpha 1 after the RGB triple of the band that red/255 selects. |
| Bands.BandOfByte | src/app/threejs-demo/threejs-demo.component.ts:111-121 | In terms of the red byte: band 0 iff red ≤ 127, band 1 iff 128 ≤ red ≤ 204, band 2 iff red ≥ 205. |
| Bands.BandMonotone | src/app/threejs-demo/threejs-demo.component.ts:115-121 | A higher elevation never selects a lower band. |
| Bands.BandOfByteMonotone | src/app/threejs-demo/threejs-demo.component.ts:111-121 | A brighter red byte never selects a lower band. |
| Bands.BandColorsDistinct | src/app/threejs-demo/threejs-demo.component.ts:103 | The three `colorInfos` triples are RGB triples, and two of them are equal iff they are the same band. |
| Bands.PixelColorExactlyOneBand | src/app/threejs-demo/threejs-demo.component.ts:103-121 | A pixel's four colour numbers end with alpha 1. Their RGB part equals band b's colour iff b is the band its elevation selects. |
| VertexBuffers.Positions | src/app/threejs-demo/threejs-demo.component.ts:104-123 | Reference definition of the finished `vertices`: the per-pixel positions in row-major order, 3·w·h numbers. |
| VertexBuffers.Colors | src/app/threejs-demo/threejs-demo.component.ts:106-123 | Reference definition of the finished `colors`: the per-pixel colours in row-major order, 4·w·h numbers. |
| VertexBuffers.PixelAttribute | src/app/threejs-demo/threejs-demo.component.ts:112-121 | One inner iteration pushes 3 numbers onto `vertices` and 4 onto `colors`. |
| VertexBuffers.PixelGrid | src/app/threejs-demo/threejs-demo.component.ts:108-109 | The pixel grid has `height` rows of `width` records, each of the attribute's stride. |
| VertexBuffers.VertexStep | src/app/threejs-demo/threejs-demo.component.ts:112-114 | The three pushes onto `vertices` extend the first x pixels of row z to the first x + 1. |
| VertexBuffers.ColorStep | src/app/threejs-demo/threejs-demo.component.ts:115-121 | The band colour and the alpha pushed onto `colors` extend the first x pixels of row z to the first x + 1. |
| VertexBuffers.RowStart | src/app/threejs-demo/threejs-demo.component.ts:109 | Entering row z, no pixel of it has been pushed. |
| VertexBuffers.PixelStep | src/app/threejs-demo/threejs-demo.component.ts:110-121 | One inner iteration, in whichever branch of the if chain, takes the buffers from the first x pixels of row z to the first x + 1. |
| VertexBuffers.RowEnd | src/app/threejs-demo/threejs-demo.component.ts:108-122 | Completing the x loop of row z gives the first z + 1 rows. |
| VertexBuffers.AllRowsBuilt | src/app/threejs-demo/threejs-demo.component.ts:108-123 | After all rows, the buffers are the finished `Positions` and `Colors`, of 3·w·h and 4·w·h numbers. |
| VertexBuffers.PixelSlots | src/app/threejs-demo/threejs-demo.component.ts:108-121 | The stride slots of pixel number k in either finished buffer hold that pixel's record. Its red byte sits at 4k. |
| VertexBuffers.VertexAt | src/app/threejs-demo/threejs-demo.component.ts:110-114 | Slots 3k..3k+2 of `vertices` are (x − w/2, 5·data[4k]/255, z − h/2) for pixel k = z·w + x. |
| VertexBuffers.ColorAt | src/app/threejs-demo/threejs-demo.component.ts:103-121 | Slot 4k+3 of `colors` is 1. Slots 4k..4k+2 equal band b's colour iff b is the band selected by data[4k]. |
| VertexBuffers.VertexBounds | src/app/threejs-demo/threejs-demo.component.ts:108-114 | Every x coordinate lies in [−w/2, w/2 − 1], every height in [0, 5], and every z coordinate in [−h/2, h/2 − 1]. |
| VertexBuffers.AlphaOpaque | src/app/threejs-demo/threejs-demo.component.ts:115-121 | Every fourth colour number, the alpha, is 1. |
| TriangleIndices.CellRows | src/app/threejs-demo/threejs-demo.component.ts:127 | Iterations of `j < height - 1` on integers: height − 1, or 0 when height is 0 (the smallest natural number ≥ height − 1). |
| TriangleIndices.CellCols | src/app/threejs-demo/threejs-demo.component.ts:129 | Iterations of `i < offset + width - 1` from `i = offset`: width − 1, or 0 when width is 0. |
| TriangleIndices.Indices | src/app/threejs-demo/threejs-demo.component.ts:125-138 | Reference definition of the finished `indices`: the six indices of each cell in row-major order of the cells, 6·CellCols(w)·CellRows(h) numbers. |
| TriangleIndices.CellIndices | src/app/threejs-demo/threejs-demo.component.ts:130-136 | One inner iteration pushes six indices. |
| TriangleIndices.CellGrid | src/app/threejs-demo/threejs-demo.component.ts:127 | There are `height − 1` rows of cells, and none when height is 0. |
| TriangleIndices.CellGridShape | src/app/threejs-demo/threejs-demo.component.ts:127-129 | Every row of cells holds `width − 1` cells of six indices each. |
| TriangleIndices.CellRowStart | src/app/threejs-demo/threejs-demo.component.ts:128-129 | Entering row j of cells, none of its cells has been pushed. |
| TriangleIndices.CellStep | src/app/threejs-demo/threejs-demo.component.ts:129-136 | The six pushes at vertex i of the row of cells that starts at `offset = j·width` extend the first i − offset cells of that row by one. |
| TriangleIndices.CellRowEnd | src/app/threejs-demo/threejs-demo.component.ts:127-137 | Completing the i loop of row j gives the first j + 1 rows of cells. |
| TriangleIndices.IndexCount | src/app/threejs-demo/threejs-demo.component.ts:125-138 | `indices` holds 6·(w−1)·(h−1) numbers when w, h ≥ 1. It is empty iff w < 2 or h < 2. |
| TriangleIndices.CellAt | src/app/threejs-demo/threejs-demo.component.ts:128-136 | Cell q = j·(w−1) + c occupies entries 6q..6q+5. Those entries are (i, i+w, i+1) and (i+1, i+w, i+1+w) with i = j·w + c. |
| TriangleIndices.CellWinding | src/app/threejs-demo/threejs-demo.component.ts:130-136 | Each triangle has three distinct vertices. The two triangles share the edge (i+1, i+w), traversed in opposite directions, so they have the same winding. |
| TriangleIndices.CellBaseInterior | src/app/threejs-demo/threejs-demo.component.ts:127-129 | A cell's top-left vertex is never in the last column or the last row of the vertex grid. |
| TriangleIndices.CellInGrid | src/app/threejs-demo/threejs-demo.component.ts:129-136 | The largest index of a cell, i + 1 + width, is below w·h. |
| TriangleIndices.IndicesInRange | src/app/threejs-demo/threejs-demo.component.ts:127-137 | Every index is in [0, w·h): it names an existing vertex. |
| RowMajor.PixelInGrid | src/app/threejs-demo/threejs-demo.component.ts:108-110 | Pixel (x, z) of a w × h grid has a row-major number below w·h. |
| RowMajor.RowMajorDivMod | src/app/threejs-demo/threejs-demo.component.ts:128-129 | Row-major numbering `z·w + x` is undone by division and remainder by w. |
| RowMajor.Locate | src/app/threejs-demo/threejs-demo.component.ts:108-109 | Every position in a buffer of w·h records of `stride` slots belongs to exactly the record (x, z) and slot c with p = stride·(z·w + x) + c. |
| RowMajor.FlattenAt | src/app/threejs-demo/threejs-demo.component.ts:108-109 | In a row-major buffer, slot c of record (x, z) sits at stride·(z·w + x) + c. |
| RowMajor.FlattenSlots | src/app/threejs-demo/threejs-demo.component.ts:108-109 | The stride slots of record k = z·w + x are exactly that record. |
| RowMajor.FlattenLength | src/app/threejs-demo/threejs-demo.component.ts:108-109 | The first m rows of w records take stride·m·w slots. |

## Left out

- Floating point: JavaScript numbers and the `Float32Array` copies are modelled as exact reals.
  - The band thresholds are unaffected. 127/255 < 0.5 < 128/255, and 204/255 is exactly 4/5, so the double 204/255 and the literal 0.8 round to the same number.
  - Rounding of `x − width/2`, `y*5` and the colour constants is not modelled.
- The debug `console.log` of the image size (line 102 of the first copy, 81 of the second) is output only and is not modelled.
- Everything after the three arrays are built calls into three.js and is not modelled. The two copies differ here:
  - `src/app/threejs-demo/threejs-demo.component.ts`, lines 139-173: the `BufferGeometry` and its attributes, `computeVertexNormals`, the `OrbitControls`, a `MeshPhysicalMaterial` with flat shading, the `Mesh`, its shadow flags, and adding it to the scene.
  - `src/app/components/threejs-demo/threejs-demo.component.ts`, lines 118-139: the `BufferGeometry` and its attributes, a `MeshBasicMaterial` in wireframe, the `Mesh`, and adding it to the scene.
- Loading the heightmap texture and drawing it into a canvas to read back `getImageData` (`onTextureLoaded`, lines 70-84 of the first copy, 49-63 of the second) are browser I/O. The resulting `ImageData` is the model's input, with a byte array of exactly 4·w·h entries.
- The scene set-up in `ngAfterViewInit` (lines 28-67 of the first copy, 25-46 of the second) is not modelled: renderer, camera, lights and the rotating cube. Neither are the animation loop and rotation speed (`animate`, `onRotationSpeedChanged`, lines 86-98 of the first copy, 64-77 of the second). None of them affects the three arrays.
- The solar-system component, its planets and moons, and the Capacitor configuration are not part of this model.
- TriangleIndices.IndexCount: the cell count is stated as 6·(w−1)·(h−1) only for w, h ≥ 1. For a zero width or height the loops run no times, so the buffer is empty. The general statement is 6·CellCols(w)·CellRows(h).
