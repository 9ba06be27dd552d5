# SlideSnatcher slide detector in Dafny

SlideSnatcher extracts slides from a recorded lecture. It reads a video
frame by frame and keeps one grayscale **reference** frame, which starts as
frame 0. Each frame it examines is processed in four steps:

1. It is converted to grayscale.
2. It is differenced pixel by pixel against the reference.
3. The difference is thresholded: more than 30 becomes 255, anything else becomes 0.
4. If the thresholded mask sums to more than 1,000,000, the frame is a new slide.

A new slide gets the next slide number and is saved as
`slide_{n}.png`, and its grayscale image becomes the reference. A rejected
frame changes nothing.

The two scripts differ in three ways:

| | `main.py` | `src/SlideSnatcher/main.py` |
|---|---|---|
| frames examined | every `skip`-th, with `skip = frame_rate * 2` (after each read it seeks `skip - 1` frames ahead) | every frame |
| colour channels | reversed to RGB before saving | frame saved as decoded |
| output path | `{output_directory}/slide_{n}.png` | `{output_path}/slide_{n}.png` |

The model has these parts:

- The video is a sequence of decoded frames (`Frames`). A read fails exactly when the position is past the last frame.
- The accept rule is a set of pure functions (`FrameDiff`).
- The file name is a string function (`SlideNames`).
- The positions each script reads are a function (`Sampling`).
- One detection pass is written once as a function of the video and of the examined positions (`Detection.Run`).
- The slides a pass saves are described once (`Detection.SavedSlides`). The conversion applied to an image before saving is a parameter: `ReverseChannels` for `main.py`, `AsDecoded` for `src/SlideSnatcher/main.py`.
- Each script's loop is a method (`StridedExtractor.ExtractSlides`, `EveryFrameExtractor.ExtractSlides`), with one iteration in a method of its own (`Step`). Its postcondition ties the slides it returns to `Run` over the positions that script examines.

Some facts about the code that the model follows:

- The program saves no frame before the first change; frame 0 is only the reference.
- Slide numbers are not zero-padded.
- There is no adaptive threshold, rolling score history, downsampling or stride bound.

## Model

| member | source | states |
|---|---|---|
| FrameDiff.PixelDiff | main.py:75 | the difference of two samples is a-b or b-a, in 0..255, and 0 exactly when the samples are equal |
| FrameDiff.Binarize | main.py:76 | a difference becomes 255 exactly when it is strictly above 30, and 0 exactly when it is at most 30 |
| FrameDiff.AbsDiff | main.py:75 | the difference frame has the reference's shape and holds the per-pixel difference at every position |
| FrameDiff.Mask | main.py:76 | the mask has the difference frame's shape and holds the thresholded difference at every position |
| FrameDiff.FrameSum | main.py:77 | the sum of all mask samples; `FrameDiff.MaskSumCountsChanged` proves that for a mask it is 255 times the number of pixels that differ by more than 30 |
| FrameDiff.IsNewSlide | main.py:77 | the accept test, the mask sum strictly above 1,000,000 (also src/SlideSnatcher/main.py:41); `FrameDiff.NewSlideIffEnoughChanged` proves it holds exactly when at least 3922 pixels differ by more than 30 |
| FrameDiff.MaskSumCountsChanged | main.py:76-77 | the mask sum is 255 times the number of pixels that differ by more than 30 |
| FrameDiff.NewSlideIffEnoughChanged | main.py:77 | a frame is accepted if and only if at least 3922 pixels differ from the reference by more than 30 |
| FrameDiff.SmallFrameNeverNewSlide | main.py:77 | a resolution with fewer than 3922 pixels can never produce a slide |
| FrameDiff.ChangedAtMostPixels | main.py:76 | the changed-pixel count never exceeds the pixel count |
| FrameDiff.WithinThresholdUnchanged | main.py:76 | a difference frame with every sample at most 30 has no changed pixel |
| FrameDiff.CloseFrameNotNewSlide | src/SlideSnatcher/main.py:37-41 | a frame within 30 of the reference at every pixel is rejected |
| FrameDiff.IdenticalNotNewSlide | src/SlideSnatcher/main.py:37-41 | a frame identical to the reference is never a new slide |
| FrameDiff.NewSlideSymmetric | main.py:75-77 | the accept rule does not depend on which frame is the reference |
| Frames.Grayscale | main.py:74 | the grayscale frame has the colour frame's shape and holds the luminance of each pixel at its position |
| Frames.ReverseChannels | main.py:80 | the saved image has the frame's shape and holds each pixel with its first and third channels exchanged |
| Frames.ReverseChannelsInvolutive | main.py:80 | reversing the channels twice gives the decoded frame back, so the conversion loses nothing |
| SlideNames.Decimal | main.py:79 | the slide number is written as a non-empty string of decimal digits with no leading zero |
| SlideNames.ParseDecimalInverse | main.py:79 | the decimal numeral reads back as the number written |
| SlideNames.SlideFileName | main.py:79 | the file name `{directory}/slide_{n}.png` (also src/SlideSnatcher/main.py:43); `SlideNames.SlideNumberFromFileName` proves the number reads back from it and `SlideNames.SlideFileNamesDistinct` that different numbers give different names |
| SlideNames.SlideNumberFromFileName | main.py:79 | the slide number can be read back from the part of the file name between `/slide_` and `.png` |
| SlideNames.SlideFileNamesDistinct | src/SlideSnatcher/main.py:43 | different slide numbers give different file names, so no slide overwrites another |
| Sampling.StridedFrom | main.py:66-72 | the positions read before the first failing read: empty exactly when the start is past the end, all in range, and the last one within one stride of the end |
| Sampling.StridedAt | main.py:72 | the k-th position read is start + k*skip |
| Sampling.StridedCovers | main.py:72 | every position start + m*skip inside the video is read |
| Sampling.StridedIncreasing | main.py:72 | a strided pass reads strictly forward |
| Sampling.AfterFirst | src/SlideSnatcher/main.py:28-31 | a video of n frames has n-1 frames examined, all after frame 0 and inside the video |
| Sampling.AfterFirstAt | src/SlideSnatcher/main.py:28-31 | the k-th frame examined is frame k+1 |
| Sampling.AfterFirstIncreasing | src/SlideSnatcher/main.py:28-31 | the every-frame pass reads strictly forward |
| Sampling.AfterFirstIsStrideOne | src/SlideSnatcher/main.py:28-31 | the every-frame pass is the strided pass with stride 1 |
| Sampling.AsWrittenStride | main.py:52-53 | the stride is even, and it is 0 exactly when the truncated frame rate is 0 |
| Sampling.Stride | main.py:53 | the stride used by the model is at least 1 and equals the written stride for every frame rate of at least 1 |
| Sampling.Cursor | main.py:60-72 | the position read by iteration k is at least 1, and with a stride of at least 1 it is at least k+1 |
| Sampling.CursorAt | main.py:60-72 | iteration k reads frame 1 + k*skip: each read is followed by a seek to skip frames after the frame just read |
| Sampling.VisitedIsStrided | main.py:66-72 | the positions read so far, followed by the stride pattern from the cursor on, are the whole pattern from frame 1 |
| Sampling.ZeroFrameRateRereadsFrameOne | main.py:52-53 | with a frame rate that truncates to 0, every iteration reads frame 1 again |
| Sampling.StrideCursorAdvances | main.py:53 | with the corrected stride, iteration k reads the k-th position of the stride pattern and the next iteration reads a later frame |
| Detection.Gray | main.py:74 | the grayscale image of any frame has the resolution of frame 0 |
| Detection.LastAccepted | main.py:65 | the reference candidate has the resolution of frame 0 |
| Detection.Run | main.py:65-83 | after the pass the reference is the grayscale image of the last accepted frame (frame 0 if none), every accepted position was examined, and there are at most as many slides as examined frames |
| Detection.RunStep | src/SlideSnatcher/main.py:37-46 | each examined frame is compared with the last accepted frame (frame 0 if none), not with the last examined one |
| Detection.ConsecutiveSlidesDiffer | main.py:77-83 | every slide passes the accept rule against the slide before it, the first one against frame 0 |
| Detection.RejectedFrameFailsRule | main.py:77-83 | an examined frame that is not saved failed the accept rule against the last saved frame (frame 0 if none), the converse of the rule for saved frames |
| Detection.SavedSlides | main.py:78-81 | slide k+1 is the k-th accepted frame, converted for saving, written to `slide_{k+1}.png` (also src/SlideSnatcher/main.py:42-44); the `ExtractSlides` postconditions state that each loop returns exactly these slides |
| Detection.SlidesInOrder | main.py:78-79 | slides saved for increasing positions that never include 0 are numbered 1, 2, 3, ..., come from later and later frames and go to distinct files, whatever conversion the image gets before saving |
| Detection.AcceptedAtLeast | main.py:60-67 | a pass that examines only positions from lo on accepts none before lo, so frame 0 is never saved |
| Detection.AcceptedIncreasing | main.py:66-83 | slides keep the order of the examined frames |
| Detection.StillVideoHasNoSlides | src/SlideSnatcher/main.py:37-41 | frames that all look like frame 0 in grayscale give no slide |
| Detection.OneCutYieldsOneSlide | main.py:74-83 | a single cut to a different enough picture gives exactly one slide, the first frame after the cut |
| StridedExtractor.ScanStart | main.py:59-65 | before the loop frame 0 is the reference, no slide is saved, and the first read is at frame 1 |
| StridedExtractor.ScanStep | main.py:67-83 | one read at the cursor moves the cursor skip frames on; the reference and slides stay those of the pass over the positions read, an accepted frame becoming the next slide and the reference, a rejected one changing nothing |
| StridedExtractor.Step | main.py:67-83 | one iteration reads the frame at the cursor, leaves the cursor at the next position of the stride pattern, strictly later, and keeps the reference, the slides and the slide counter those of the pass over every position read so far |
| StridedExtractor.Scan | main.py:65-85 | when the loop stops the cursor is past the last frame, and the reference and slides are those of the pass over every position read |
| StridedExtractor.ScanDone | main.py:66-69 | when a read fails the positions read are exactly frames 1, 1+skip, 1+2*skip, ... below the frame count |
| StridedExtractor.ExtractSlides | main.py:59-85 | an empty video ends in a failed first read and nothing else does; otherwise slide k+1 is the k-th frame accepted over frames 1, 1+skip, 1+2*skip, ..., saved with reversed channels as `{dir}/slide_{k+1}.png` |
| StridedExtractor.SavedSlidesInOrder | main.py:59-83 | the slides of a strided run are numbered without gaps from 1, never include frame 0, are in video order and go to distinct files |
| EveryFrameExtractor.ScanStep | src/SlideSnatcher/main.py:29-46 | reading frame c keeps the loop state: the reference and slides stay those of the pass over frames 1 .. c, an accepted frame becoming the next slide and the reference, a rejected one changing nothing |
| EveryFrameExtractor.Step | src/SlideSnatcher/main.py:29-46 | one iteration reads the frame at the cursor, moves the cursor to the next frame, and keeps the reference, the slides and the slide counter those of the pass over every frame read so far |
| EveryFrameExtractor.ExtractSlides | src/SlideSnatcher/main.py:19-46 | an empty video ends in a failed first read and nothing else does; otherwise slide k+1 is the k-th frame accepted over frames 1, 2, 3, ..., saved as decoded as `{path}/slide_{k+1}.png` |
| EveryFrameExtractor.SavedSlidesInOrder | src/SlideSnatcher/main.py:19-46 | the slides of an every-frame run are numbered without gaps from 1, never include frame 0, are in video order and go to distinct files |

## Left out

- Opening, reading, seeking and releasing the video (`cv2.VideoCapture`). These are decoder I/O. The model takes the decoded frames as a sequence; a read fails exactly past the last frame, and a seek only moves the position.
- The luminance weights of the BGR-to-gray conversion. These are the imaging library's fixed-point arithmetic. They are the parameter `luma`.
- Writing the PNG file and creating the output directory (`Image.save`, `os.makedirs`, `os.path.join`). These are disk I/O. Only the image and the file name of each slide are modelled.
- Command-line parsing and the interactive video choice (`argparse`, `select_video` with `glob` and `input`). This is user interface. One quirk is not modelled: a choice of 0 selects the last listed file through negative indexing.
- The progress bar and the messages printed (`tqdm`, `print`). These are presentation only.
- StridedExtractor.ExtractSlides, EveryFrameExtractor.ExtractSlides: both require all frames to share one resolution, so videos whose frames change resolution are excluded. Neither script checks the resolution; on such a video the program stops with an error in the difference step (`cv2.absdiff`) at the first examined frame of another size, and that error is not modelled. For main.py the requirement also excludes videos in which only frames the stride skips differ in size; the program processes those without error, since skipped frames never reach the difference step.
- StridedExtractor.ExtractSlides: the model uses the corrected stride, at least 1. With a truncated frame rate of 0 the program as written never ends (see Findings).
- Detection.Slide: the `frame` field records which frame was saved. The program does not keep it; it is there so the model can state which frame each slide comes from.
- A wrap-around of the mask sum: `np.sum` on an 8-bit mask accumulates in a wider integer, so the sums are unbounded here.

## Findings

| source | as written | input that shows it | evidently intended | confidence | as-written member | corrected member |
|---|---|---|---|---|---|---|
| main.py:52-53, main.py:72 | `skip_frames = frame_rate * 2` with the frame rate truncated to an integer. After each read the position is set to itself plus `skip_frames - 1`. | A video of two or more frames whose reported frame rate is below 1 (or 0 when the container does not state one). The stride is 0, so every iteration rewinds to frame 1 and reads it again, and the loop never ends. | A stride of at least one frame, so that every iteration moves forward and the loop ends at the end of the video. | not executed | Sampling.ZeroFrameRateRereadsFrameOne | Sampling.StrideCursorAdvances |
