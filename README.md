# Image filters, pipeline and row partition of the Aula_05 programs

A Dafny model of the image-processing core of the three Aula_05 programs. It covers:

- **Pixels.** A `Pixel` holds three 8-bit channels (`Pixels`).
- **Point filters.** Grayscale, invert, brightness and threshold, plus the row-ranged grayscale `apply_filter` (`Pixels`, `Grids`, `Filters`).
- **Neighbourhood filters.** Blur and sharpen. Both take a full copy first and then rewrite only the interior (`Grids`, `Filters`).
- **`apply_pipeline`.** A list of filters applied in order (`Pipeline`).
- **Row partition.** The multithreaded drivers split the grid into one row region per worker (`Partition`).
- **Binary PPM.** The "P6" header the programs write, the raw row-major pixel records, and the four PPM drivers: both versions of `process_ppm_image` (the "P3" one and the "P6" one), `process_ppm_image_multithreaded` and `process_ppm_image_with_pipeline` (`Ppm`, with offset arithmetic in `RowMajor`).
- **STB buffer.** The interleaved `channels`-wide byte buffer of the STB drivers, converted to a grid and back (`Interleaved`).

The source works in place, so the model does too:

- **Filters.** They are methods over an `array2<Pixel>`. Each is proved to leave the array equal to a whole-grid function applied to the grid it found.
- **Whole-grid functions.** The functions in `Grids` work on `seq<seq<Pixel>>`. The algebraic facts are proved about them: invert is an involution, grayscale is idempotent, blur and sharpen fix a uniform grid, and the empty pipeline is the identity.
- **PPM drivers.** They take the header already split into its tokens and the bytes that follow it. They return the bytes of the output file, or `None` when the magic token is refused.
- **Workers.** They run one after the other, in index order. Their row ranges are disjoint, and swapping the passes of two workers over disjoint ranges does not change the result.

Behaviour follows the code where a stricter design would differ:

- **Short body.** A body with fewer than `width * height * 3` bytes is not an error. The missing bytes stay 0, because the grid starts value-initialised, a read that runs out keeps the bytes it got, and every later read stores nothing.
- **Maximum value.** The maximum colour value is copied to the output without being checked.
- **Worker count.** Only `num_threads >= 1` is accepted. More workers than rows is allowed; then every region but the last is empty.

## Model

| member | source | states |
|---|---|---|
| Pixels.Gray | Aula_05/Aula_05_Multithread_Image__Pipeline_03.cpp:41 | the mean `(r + g + b) / 3` lies between the smallest and the largest channel, so it fits a byte |
| Pixels.GrayscalePixel | Aula_05/Aula_05_Multithread_Image__Pipeline_03.cpp:41-44 | all three channels become the gray level of the pixel; a pixel that is already gray is left as it is |
| Pixels.GrayscalePixelIdempotent | Aula_05/Aula_05_Multithread_Image__Pipeline_03.cpp:38-47 | grayscale applied to a pixel twice equals once |
| Pixels.InvertPixel | Aula_05/Aula_05_Multithread_Image__Pipeline_03.cpp:53-55 | each output channel plus the input channel is 255 |
| Pixels.InvertPixelInvolutive | Aula_05/Aula_05_Multithread_Image__Pipeline_03.cpp:50-58 | inverting a pixel twice gives it back |
| Pixels.Brighten | Aula_05/Aula_05_Multithread_Image__Pipeline_03.cpp:64-66 | for a non-negative factor the result is never below the input and never above 255, equals `c + factor` exactly when that fits, and is 255 otherwise |
| Pixels.BrightnessSaturates | Aula_05/Aula_05_Multithread_Image__Pipeline_03.cpp:61-69 | channels of 200 brightened by 300 come out white (255, 255, 255) |
| Pixels.BrightnessPixel | Aula_05/Aula_05_Multithread_Image__Pipeline_03.cpp:64-66 | each channel of the brightened pixel is never below the input, at most `factor` above it, and either exactly `factor` above it or 255, i.e. `min(255, c + factor)` |
| Pixels.Clamp | Aula_05/Aula_05_Multithread_Image__Pipeline_03.cpp:132-134 | `std::clamp(x, 0, 255)`: `x` inside the range, 0 below it, 255 above it |
| Pixels.ThresholdPixel | Aula_05/Aula_05_Multithread_Image__Pipeline_03.cpp:86-92 | the result is white or black, and white exactly when the gray level exceeds the threshold |
| Grids.MapRows | Aula_05/Aula_05_MultiThread_Images.cpp:26-35 | same shape; rows outside `[s, e)` are unchanged; every pixel of rows inside is the point rule applied to the old pixel |
| Grids.MapPixels | Aula_05/Aula_05_Multithread_Image__Pipeline_03.cpp:38-47 | a whole-grid point filter keeps the shape and rewrites every pixel by the rule |
| Grids.MapRowsAdjacent | Aula_05/Aula_05_MultiThread_Images.cpp:142-151 | a pass over `[a, b)` followed by a pass over `[b, c)` equals one pass over `[a, c)` |
| Grids.MapRowsDisjointCommute | Aula_05/Aula_05_MultiThread_Images.cpp:140-151 | two passes over disjoint row ranges commute, whatever point rules they apply: swapping the passes of two workers does not change the result |
| Grids.GrayscaleRowsIdempotent | Aula_05/Aula_05_MultiThread_Images.cpp:27-33 | re-applying grayscale over the same range changes nothing |
| Grids.InvertInvolutive | Aula_05/Aula_05_Multithread_Image__Pipeline_03.cpp:50-58 | invert applied twice to a grid returns the grid exactly |
| Grids.NeighbourhoodSum | Aula_05/Aula_05_Multithread_Image__Pipeline_03.cpp:105-115 | the 3x3 neighbourhood sum of a channel lies in `0 .. 9 * 255`, so the blurred value fits a byte |
| Grids.BlurPixel | Aula_05/Aula_05_Multithread_Image__Pipeline_03.cpp:105-115 | each channel of a blurred interior pixel is the 3x3 neighbourhood sum divided by 9, rounded down (`9v <= sum < 9v + 9`) |
| Grids.SharpenSum | Aula_05/Aula_05_Multithread_Image__Pipeline_03.cpp:128-130 | the kernel `5c - up - down - left - right` of an interior pixel is an `int` in `-4*255 .. 5*255`, so it can leave the byte range on both sides |
| Grids.SharpenChannel | Aula_05/Aula_05_Multithread_Image__Pipeline_03.cpp:128-134 | the sharpened channel is the kernel value when it is a byte, 0 when it is negative and 255 when it exceeds 255 |
| Grids.SharpenPixel | Aula_05/Aula_05_Multithread_Image__Pipeline_03.cpp:128-134 | red, green and blue of the sharpened pixel are the sharpened channels 0, 1 and 2 |
| Grids.Blur | Aula_05/Aula_05_Multithread_Image__Pipeline_03.cpp:98-118 | same shape; border pixels (row 0, last row, column 0, last column) unchanged; every interior channel is the 3x3 sum over the input divided by 9 |
| Grids.Sharpen | Aula_05/Aula_05_Multithread_Image__Pipeline_03.cpp:121-137 | same shape; border pixels unchanged; every interior channel is `clamp(5c - up - down - left - right, 0, 255)` over the input |
| Grids.BlurWithinNeighbourhood | Aula_05/Aula_05_Multithread_Image__Pipeline_03.cpp:105-115 | a blurred channel lies between the smallest and largest value of that channel in its neighbourhood |
| Grids.FlatNeighbourhood | Aula_05/Aula_05_Multithread_Image__Pipeline_03.cpp:103-135 | on a flat 3x3 patch both kernels return the patch colour |
| Grids.NeighbourhoodFiltersFixUniform | Aula_05/Aula_05_Multithread_Image__Pipeline_03.cpp:98-137 | blur and sharpen leave a single-colour grid unchanged |
| Filters.MapRowsInPlace | Aula_05/Aula_05_MultiThread_Images.cpp:27-34 | the nested in-place loop leaves the grid equal to `MapRows` of the grid it found |
| Filters.ApplyFilter | Aula_05/Aula_05_MultiThread_Images.cpp:26-35 | `apply_filter(image, s, e)` leaves the grid equal to grayscale over rows `[s, e)` of the old grid, every other row untouched (the same function is at Aula_05/Aula_05_Multithread_Image_02.cpp:17-26) |
| Filters.GrayscaleFilter | Aula_05/Aula_05_Multithread_Image__Pipeline_03.cpp:38-47 | the grid becomes grayscale of the old grid, pixel by pixel |
| Filters.InvertFilter | Aula_05/Aula_05_Multithread_Image__Pipeline_03.cpp:50-58 | the grid becomes invert of the old grid, pixel by pixel |
| Filters.BrightnessFilter | Aula_05/Aula_05_Multithread_Image__Pipeline_03.cpp:61-69 | the grid becomes `Brighten` of the old grid, channel by channel |
| Filters.ThresholdFilter | Aula_05/Aula_05_Multithread_Image__Pipeline_03.cpp:83-95 | the grid becomes the threshold of the old grid, pixel by pixel |
| Filters.BlurFilter | Aula_05/Aula_05_Multithread_Image__Pipeline_03.cpp:98-118 | writing interior pixels in place from a copy gives exactly `Blur` of the old grid, so no write affects a later read |
| Filters.SharpenFilter | Aula_05/Aula_05_Multithread_Image__Pipeline_03.cpp:121-137 | writing interior pixels in place from a copy gives exactly `Sharpen` of the old grid |
| Pipeline.RunFilter | Aula_05/Aula_05_Multithread_Image__Pipeline_03.cpp:211-219 | every filter of the pipeline keeps the height, the row lengths and rectangularity |
| Pipeline.Filter | Aula_05/Aula_05_Multithread_Image__Pipeline_03.cpp:211-219 | the filters a pipeline is built from: grayscale, invert, brightness by a factor, threshold at a level, blur and sharpen (contrast and sepia are left out) |
| Pipeline.RunPipeline | Aula_05/Aula_05_Multithread_Image__Pipeline_03.cpp:155-159 | the filters applied in list order keep the shape of the grid |
| Pipeline.RunPipelineAppend | Aula_05/Aula_05_Multithread_Image__Pipeline_03.cpp:155-159 | running two lists one after the other is running their concatenation |
| Pipeline.RunPipelineEmpty | Aula_05/Aula_05_Multithread_Image__Pipeline_03.cpp:155-159 | the empty pipeline leaves the grid unchanged |
| Pipeline.GrayscaleIdempotent | Aula_05/Aula_05_Multithread_Image__Pipeline_03.cpp:38-47 | the pipeline `[grayscale, grayscale]` equals `[grayscale]` |
| Pipeline.InvertTwiceIsIdentity | Aula_05/Aula_05_Multithread_Image__Pipeline_03.cpp:50-58 | the pipeline `[invert, invert]` is the identity |
| Pipeline.ApplyStage | Aula_05/Aula_05_Multithread_Image__Pipeline_03.cpp:157 | one stage leaves the grid equal to `RunFilter` of the old grid |
| Pipeline.ApplyPipeline | Aula_05/Aula_05_Multithread_Image__Pipeline_03.cpp:155-159 | the in-place loop leaves the grid equal to `RunPipeline` of the old grid, stages strictly in list order |
| Partition.RegionStartBound | Aula_05/Aula_05_MultiThread_Images.cpp:139-144 | no region starts past `height`, and no region but the last ends past it |
| Partition.RowsPerRegion | Aula_05/Aula_05_MultiThread_Images.cpp:139 | `rows_per_region` is `height / num_threads`: `q * n <= height < (q + 1) * n` (same computation in Aula_05/Aula_05_Multithread_Image_02.cpp:105) |
| Partition.RegionStart | Aula_05/Aula_05_MultiThread_Images.cpp:143 | `start_row` of worker `i` is `i * rows_per_region`, and for `i < num_threads` it is at most `height` (Aula_05/Aula_05_Multithread_Image_02.cpp:109) |
| Partition.RegionEnd | Aula_05/Aula_05_MultiThread_Images.cpp:144 | `end_row` of the last worker is `height`; every worker's region ends no earlier than it starts and no later than `height` (Aula_05/Aula_05_Multithread_Image_02.cpp:110) |
| Partition.RegionsApplied | Aula_05/Aula_05_MultiThread_Images.cpp:142-151 | the grid after workers `0 .. k - 1` have each run their region in turn keeps the input's shape |
| Partition.RegionsContiguous | Aula_05/Aula_05_MultiThread_Images.cpp:139-145 | region 0 starts at row 0, the last ends at `height`, each ends where the next begins, and none is negative in length |
| Partition.LastRegionTakesRemainder | Aula_05/Aula_05_MultiThread_Images.cpp:144 | the last region holds `rows_per_region + height % num_threads` rows |
| Partition.InRegionIsOwner | Aula_05/Aula_05_Multithread_Image_02.cpp:105-111 | a region that holds a row is the region of its owner |
| Partition.OwnerRegionHoldsRow | Aula_05/Aula_05_Multithread_Image_02.cpp:105-111 | the owner's region holds the row, also when `num_threads > height` and `rows_per_region` is 0 |
| Partition.RowInExactlyOneRegion | Aula_05/Aula_05_Multithread_Image_02.cpp:105-111 | a row lies in region `i` exactly when `i` is its owner: the regions cover `[0, height)` with no gap and no overlap |
| Partition.RegionsAppliedPrefix | Aula_05/Aula_05_MultiThread_Images.cpp:142-151 | after the first `k` workers exactly the rows up to the end of region `k - 1` are gray |
| Partition.PartitionedPassEqualsWholePass | Aula_05/Aula_05_Multithread_Image_02.cpp:105-117 | the passes of all workers together equal one pass over `[0, height)` |
| Partition.ApplyFilterPartitioned | Aula_05/Aula_05_MultiThread_Images.cpp:139-151 | the partition loop and join leave the grid equal to the worker passes in order, and to single-threaded `apply_filter(image, 0, height)`; the PPM driver of Aula_05/Aula_05_Multithread_Image_02.cpp:105-117 uses the same partition |
| RowMajor.PixelBytesInRange | Aula_05/Aula_05_MultiThread_Images.cpp:96-97 | with `channels >= 3` the three bytes of every pixel lie below `width * height * channels` |
| RowMajor.SplitOffset | Aula_05/Aula_05_MultiThread_Images.cpp:96 | byte `p * channels + ch` belongs to record `p`, channel `ch` |
| RowMajor.SplitRecord | Aula_05/Aula_05_MultiThread_Images.cpp:96 | record `p` of a `height * width` grid is pixel `(p / width, p % width)` |
| Ppm.Digits | Aula_05/Aula_05_Multithread_Image__Pipeline_03.cpp:197 | the digits `<<` writes for a non-negative int: at least one, no leading zero, all decimal |
| Ppm.DigitsRoundTrip | Aula_05/Aula_05_Multithread_Image__Pipeline_03.cpp:197 | reading the written digits back gives the number |
| Ppm.Decimal | Aula_05/Aula_05_Multithread_Image__Pipeline_03.cpp:197 | `<<` on an int: the digits, with a minus sign when negative, all ASCII |
| Ppm.HeaderText | Aula_05/Aula_05_Multithread_Image__Pipeline_03.cpp:197 | the header is ASCII, starts with `P6\n` and ends with a newline |
| Ppm.HeaderBytes | Aula_05/Aula_05_Multithread_Image__Pipeline_03.cpp:197 | the first three bytes of the header are 80, 54, 10 |
| Ppm.EncodeRow | Aula_05/Aula_05_Multithread_Image__Pipeline_03.cpp:199-201 | a row is written as three bytes per pixel |
| Ppm.RecordBytes | Aula_05/Aula_05_Multithread_Image__Pipeline_03.cpp:200 | one pixel is written as three bytes, red, green and blue in that order |
| Ppm.EncodeBody | Aula_05/Aula_05_Multithread_Image__Pipeline_03.cpp:198-202 | the body written row by row is a whole number of three-byte records |
| Ppm.EncodeRowAt | Aula_05/Aula_05_Multithread_Image__Pipeline_03.cpp:199-201 | byte `3j + ch` of a written row is channel `ch` of pixel `j` |
| Ppm.EncodeBodyLength | Aula_05/Aula_05_Multithread_Image__Pipeline_03.cpp:198-202 | the body of a `height` by `width` grid is `height * width * 3` bytes |
| Ppm.EncodeBodyAt | Aula_05/Aula_05_Multithread_Image__Pipeline_03.cpp:198-202 | byte `3 (i width + j) + ch` of the body is channel `ch` of pixel `(i, j)`: row-major, no padding |
| Ppm.DecodeBody | Aula_05/Aula_05_Multithread_Image__Pipeline_03.cpp:181-188 | the decoded grid has `height` rows of `width` pixels |
| Ppm.ByteOrZero | Aula_05/Aula_05_Multithread_Image__Pipeline_03.cpp:186 | byte `k` read from the body is the stream's byte `k` while the stream lasts and 0 once it has run dry |
| Ppm.ReadRecord | Aula_05/Aula_05_Multithread_Image__Pipeline_03.cpp:186 | the `p`-th record read is the pixel of bytes `3p, 3p+1, 3p+2` when the stream holds them, and black when the stream ended before byte `3p`; a record cut short keeps its first byte and takes the rest through `ByteOrZero` (0 past the end) |
| Ppm.DecodeBodyAt | Aula_05/Aula_05_Multithread_Image__Pipeline_03.cpp:184-188 | pixel `(i, j)` is record `i * width + j` of the stream, with 0 for bytes past its end |
| Ppm.ReadEncodedRecord | Aula_05/Aula_05_Multithread_Image__Pipeline_03.cpp:184-202 | decoding a written body gives back pixel `(i, j)` |
| Ppm.DecodeEncodeBody | Aula_05/Aula_05_Multithread_Image__Pipeline_03.cpp:184-202 | decoding the body that was written reproduces the grid |
| Ppm.EncodeDecodeRecord | Aula_05/Aula_05_Multithread_Image__Pipeline_03.cpp:184-202 | channel `ch` of record `i * width + j` survives a read followed by a write |
| Ppm.EncodeDecodeByte | Aula_05/Aula_05_Multithread_Image__Pipeline_03.cpp:184-202 | byte `k` of a body read and written back is byte `k` of the stream |
| Ppm.EncodeDecodeBody | Aula_05/Aula_05_Multithread_Image__Pipeline_03.cpp:184-202 | writing back a body that was read gives the first `height * width * 3` bytes of the stream when it held them all |
| Ppm.PpmFileLayout | Aula_05/Aula_05_Multithread_Image__Pipeline_03.cpp:197-202 | the written file starts with `P6\n`, is header plus `height * width * 3` bytes long, and its bytes after the header decode to the grid |
| Ppm.PpmFile | Aula_05/Aula_05_Multithread_Image__Pipeline_03.cpp:197-202 | the written file is the ASCII header text followed by the encoded body: its length is their sum, its prefix the header bytes, its suffix the body |
| Ppm.ReadPixels | Aula_05/Aula_05_Multithread_Image__Pipeline_03.cpp:184-188 | the read loop fills the grid with `DecodeBody` of the bytes after the header (the same loop is at Aula_05/Aula_05_Multithread_Image_02.cpp:51-55) |
| Ppm.WritePixels | Aula_05/Aula_05_Multithread_Image__Pipeline_03.cpp:198-202 | the write loop emits `EncodeBody` of the grid (the same loop is at Aula_05/Aula_05_Multithread_Image_02.cpp:65-69) |
| Ppm.ProcessPpmImage | Aula_05/Aula_05_Multithread_Image_02.cpp:29-71 | no output exactly when the magic is not "P6"; otherwise the file is the header and the records of the grayscale of the decoded grid |
| Ppm.ProcessPpmImageAsWritten | Aula_05/Aula_05_MultiThread_Images.cpp:38-80 | the driver as written: no output exactly when the magic is not "P3"; otherwise the same file as above |
| Ppm.OwnOutputMagicAccepted | Aula_05/Aula_05_Multithread_Image_02.cpp:40-44 | every written file starts with the bytes of "P6" and a newline, the token the guard accepts |
| Ppm.OwnOutputRejectedAsWritten | Aula_05/Aula_05_MultiThread_Images.cpp:50-53 | the "P3" guard refuses every file the drivers write |
| Ppm.ProcessPpmImageMultithreaded | Aula_05/Aula_05_Multithread_Image_02.cpp:74-128 | no output exactly when the magic is not "P6"; otherwise the same file as the single-threaded driver |
| Ppm.ProcessPpmImageWithPipeline | Aula_05/Aula_05_Multithread_Image__Pipeline_03.cpp:162-204 | no output exactly when the magic is not "P6"; otherwise the file is the header and the records of `RunPipeline` of the decoded grid |
| Interleaved.GridOfBuffer | Aula_05/Aula_05_MultiThread_Images.cpp:93-99 | the grid has `height` rows of `width` pixels taken from the first three bytes of each record |
| Interleaved.GridOfBufferAt | Aula_05/Aula_05_MultiThread_Images.cpp:96-97 | pixel `(i, j)` is bytes `k, k + 1, k + 2` with `k = (i * width + j) * channels`, all inside the buffer |
| Interleaved.WriteBack | Aula_05/Aula_05_MultiThread_Images.cpp:105-112 | the written-back buffer has the length of the old one |
| Interleaved.WriteBackAt | Aula_05/Aula_05_MultiThread_Images.cpp:105-112 | bytes `k .. k + 2` of each record take the pixel's channels; every further channel byte keeps its old value |
| Interleaved.WriteBackOfOwnGrid | Aula_05/Aula_05_MultiThread_Images.cpp:94-112 | converting the buffer and writing the grid straight back leaves the buffer identical |
| Interleaved.BufferToGrid | Aula_05/Aula_05_MultiThread_Images.cpp:93-99 | the conversion loop fills a `height` by `width` grid equal to `GridOfBuffer` |
| Interleaved.CopyBackStep | Aula_05/Aula_05_MultiThread_Images.cpp:107-110 | writing one pixel's three bytes moves the copied-back frontier past its whole record |
| Interleaved.StoreChannels | Aula_05/Aula_05_MultiThread_Images.cpp:108-110 | the three stores change exactly bytes `idx .. idx + 2` |
| Interleaved.CopyRowBack | Aula_05/Aula_05_MultiThread_Images.cpp:106-111 | copying back one row moves the frontier from the start of row `i` to the start of row `i + 1` |
| Interleaved.GridToBuffer | Aula_05/Aula_05_MultiThread_Images.cpp:105-112 | the copy-back loop leaves the buffer equal to `WriteBack` of the old buffer and the grid (the multithreaded driver repeats the loop at lines 154-161) |
| Interleaved.ProcessStbImage | Aula_05/Aula_05_MultiThread_Images.cpp:83-118 | the buffer ends as the old buffer with every pixel's three colour bytes replaced by its gray level, and every further channel byte kept |
| Interleaved.ProcessStbImageMultithreaded | Aula_05/Aula_05_MultiThread_Images.cpp:121-167 | the same result as `ProcessStbImage`, with the gray pass split over the row partition |

## Left out

- Threads: `std::thread`, `std::ref` and `join` are modelled as the workers' passes run one after the other. Their row ranges are disjoint, and swapping the passes of two workers over disjoint ranges does not change the result (`Grids.MapRowsDisjointCommute`). Data races are not a concern, as no two workers touch the same row.
- `contrast_filter` and `sepia_filter`: floating-point arithmetic with `float`/`double` casts, which Dafny's integers do not model.
- Filters held as arbitrary `std::function` values in a pipeline: the pipeline holds the six integer filters of the datatype `Pipeline.Filter`.
- Pixels.Brighten: a negative factor is excluded (`nat`). The source would convert a negative sum to `unsigned char` and wrap. Every call in the source passes 50.
- Overflow of the `int` sums `c + factor` and `(i * width + j) * channels`: integers are unbounded here.
- File streams: opening, `>>` tokenising of the header, `ignore()` and closing the stream. The header is a parsed `PpmHeader`, and the body is the bytes after the ignored character. A failure to open the input prints a message and returns with no output. Opening and writing the output file are never checked: such a failure is silent, and so is a failed `stbi_write_jpg`. The drivers here return the bytes a working output stream receives.
- Negative width or height read from a file: the header fields are `nat`.
- `process_stb_image` loads the global `jpg_input_file`, not its `input_file` parameter (Aula_05/Aula_05_MultiThread_Images.cpp:86); `data` in `Interleaved.ProcessStbImage` stands for whatever buffer that call returns.
- `stbi_load`, `stbi_write_jpg`, `stbi_image_free`: the external codec. The buffer it returns is the parameter `data`, with `channels >= 3`. With fewer channels the source reads past the buffer.
- Partition with `num_threads == 0`: the source divides by zero. With `num_threads < 0`: `height / num_threads` truncates as usual, the worker loop runs zero times, and the image is written back unfiltered. Every call passes 4, and the model requires at least one worker.
- Blur and sharpen on a grid with no rows: the source indexes `image[0]`. The model requires a row (`Pipeline.ReadsFirstRow`).
- Timing with `std::chrono`, console banners and the `main` functions.
- The `process_stb_image*` calls at lines 152 and 159 of Aula_05/Aula_05_Multithread_Image_02.cpp: that program never defines these functions.
- The Aula_03, Aula_04 and Aula_Timer programs: they are not part of this model.

## Findings

| source | as written | input that shows it | evidently intended | confidence | as-written member | corrected member |
|---|---|---|---|---|---|---|
| Aula_05/Aula_05_MultiThread_Images.cpp:50 | the single-threaded PPM driver accepts only the magic token "P3", yet reads raw 3-byte records and writes a "P6" header (line 73) | any file written by the drivers, whose first token is "P6": it is refused with "Unsupported PPM format" | accept "P6", as the other two drivers do | high, not executed | Ppm.ProcessPpmImageAsWritten | Ppm.ProcessPpmImage |

`Ppm.OwnOutputRejectedAsWritten` shows that the as-written guard refuses every file the drivers write. `Ppm.OwnOutputMagicAccepted` shows that the corrected guard accepts the magic those files start with.
