# Sliding-window emotion summary

A Dafny model of the per-frame bookkeeping in `generate_frames` of the
emotion-detection web app (`app.py`). For every captured webcam
frame the app asks the emotion detector for one result per face. It counts
how many faces are labelled exactly `"happy"` and exactly `"sad"` and keeps
that `(happy, sad)` sample in a `deque(maxlen=20)`. From the totals over the
deque it computes a happy and a sad percentage, then colours each face box
by its label and the summary line by which percentage is larger.

The model turns this loop into pure functions over sequences:

- `Labels`: the per-frame tally (`Classify`, and `CountEmotions`, the loop as written).
- `Window`: the bounded deque. `Append` is `deque.append` with a `maxlen`.
  `MaxFrames = 20` is `max_frames`.
- `Aggregate`: the totals over the history and the two percentages, as exact reals.
- `Colours`: the box colour of a face and the colour of the summary line,
  using the OpenCV BGR triples of lines 53-58 and 80-83.
- `Frames`: one pass of the loop, `Step(history, outcome)`, which returns the
  new history, the percentages, the summary colour and the box colours. It
  also holds the run over many frames and the stream that stops at the first
  failed camera read.

The detector is an input. `Analyzed(labels)` stands for a successful
analysis, and the labels are the `dominant_emotion` strings in result order.
`Failed` stands for an exception raised before the append on line 44.

A failed analysis appends nothing: `emotion_history.append` (line 44) sits
inside the `try`, so the percentages for that frame are recomputed from the
unchanged history (`Frames.Step`, `Frames.FailedFrameRepeatsSummary`).
Counts are non-negative by construction (`nat` here). The capacity is the
constant 20; `Window.Append` takes it as a parameter, so a three-element
worked example can be stated too (`Frames.CapacityThreeScenario`).

## Model

| member | source | states |
|---|---|---|
| Labels.Tally | PROJECT/app.py:39-40 | definition of one pass of the counting loop; its properties are in Labels.UncountedIgnored and Labels.ClassifyCountsOccurrences |
| Labels.Classify | PROJECT/app.py:24-40 | definition of the frame's tally; its properties are in Labels.ClassifyCountsOccurrences, Labels.ClassifyConcat and Labels.CountEmotions |
| Labels.CountedFaces | PROJECT/app.py:25-41 | definition of `total_faces`; its properties are in Labels.ClassifyCountsCountedFaces |
| Labels.ClassifyCountsOccurrences | PROJECT/app.py:36-40 | a frame's happy count is the number of results labelled exactly "happy", and its sad count the number labelled exactly "sad" |
| Labels.CountEmotions | PROJECT/app.py:24-40 | the counting loop over a two-key tally yields the same sample, with the same occurrence counts |
| Labels.ClassifyConcat | PROJECT/app.py:36-40 | counting the results in two parts and adding the tallies gives the tally of the whole |
| Labels.UncountedIgnored | PROJECT/app.py:39-40 | a result whose label is neither "happy" nor "sad" changes neither count |
| Labels.ClassifyCountsCountedFaces | PROJECT/app.py:36-41 | happy + sad equals `total_faces`, which is at most the number of results and equals it exactly when every label is "happy" or "sad" |
| Labels.OnlyUncountedIsZero | PROJECT/app.py:39-40 | a frame whose results all carry other labels (or that has none) yields the sample (0, 0) |
| Window.Newest | PROJECT/app.py:16 | the newest-n window of a sequence has min(n, length) elements |
| Window.Append | PROJECT/app.py:15-16 | a bounded append never exceeds the capacity. It grows the history by one while there is room and stays at the capacity once full. The result is the newest `cap` elements of history-plus-new-sample, with the new sample last |
| Window.AppendAll | PROJECT/app.py:44 | line 44 repeated over a sequence of samples never exceeds the capacity; its contents are in Window.AppendAllKeepsNewest |
| Window.AppendFullDropsOldest | PROJECT/app.py:16 | on a full history only the oldest sample leaves; the others shift forward in order and the new one is last |
| Window.AppendAllKeepsNewest | PROJECT/app.py:44 | after any number of appends the history is exactly the newest `cap` of everything appended, and its length is min(old length + appended, cap) |
| Window.FullAfterEnoughPushes | PROJECT/app.py:15-16 | after at least `cap` appends the history holds exactly the last `cap` samples pushed |
| Aggregate.Sum | PROJECT/app.py:69-70 | definition of both totals at once; its properties are in Aggregate.SumConcat, Aggregate.TotalZeroIff and Aggregate.SumCountsAllFaces |
| Aggregate.Total | PROJECT/app.py:71 | definition of `total`; its properties are in Aggregate.TotalZeroIff |
| Aggregate.PercentOf | PROJECT/app.py:74-75 | definition of the percentage formula; its properties are in Aggregate.ShareOf and Aggregate.SharesAreShares |
| Aggregate.Shares | PROJECT/app.py:71-77 | with a zero total both percentages are 0; otherwise they add up to 100; each always lies in [0, 100] |
| Aggregate.Percent | PROJECT/app.py:69-77 | the percentages of a history: (0, 0) when the summed total is 0, otherwise a split of 100, each in [0, 100] |
| Aggregate.SharesAreShares | PROJECT/app.py:73-75 | happy% times the total equals 100 times the happy total, and likewise for sad, i.e. each is 100·part/total |
| Aggregate.ShareOf | PROJECT/app.py:74-75 | the percentage formula times the total gives back 100 times the part |
| Aggregate.Summarize | PROJECT/app.py:69-77 | the summing loops over the history followed by the percentage step give exactly `Percent` of the history, adding up to 100 when the total is positive |
| Aggregate.SumConcat | PROJECT/app.py:69-70 | the totals of a history split in two are the sums of the parts' totals |
| Aggregate.TotalZeroIff | PROJECT/app.py:71 | the summed total is 0 exactly when every sample in the history is (0, 0), which includes the empty history |
| Aggregate.AppendTotalsWithRoom | PROJECT/app.py:69-70 | appending to a history with room adds the new sample to the totals |
| Aggregate.AppendTotalsWhenFull | PROJECT/app.py:69-70 | appending to a full history adds the new sample and removes the evicted oldest sample from the totals |
| Aggregate.SumCountsAllFaces | PROJECT/app.py:69-70 | the happy (sad) total over the samples of a list of frames is the number of "happy" ("sad") labels across all of those frames |
| Colours.BoxColour | PROJECT/app.py:53-58 | a face box is green exactly for "happy", red exactly for "sad", and white exactly for every other label |
| Colours.BoxColours | PROJECT/app.py:48-58 | one box per detector result, counted or not, in result order, each coloured by its own label |
| Colours.WhiteBoxIffUncounted | PROJECT/app.py:53-58 | a box is white exactly when its face adds nothing to the frame's sample |
| Colours.BoxesMatchSample | PROJECT/app.py:48-58 | the number of green boxes is the frame's happy count and the number of red boxes its sad count |
| Colours.SummaryColour | PROJECT/app.py:80-83 | the summary is green exactly when happy% >= sad% and red exactly when happy% < sad% |
| Colours.SummaryGreenIff | PROJECT/app.py:80-83 | the summary of a history is green exactly when its happy total is at least its sad total, including the all-zero case |
| Colours.SummaryOfShares | PROJECT/app.py:80-83 | comparing the two percentages of a pair of totals is comparing the totals themselves |
| Frames.NextHistory | PROJECT/app.py:27-44 | a failed analysis leaves the history unchanged. A successful one appends the frame's sample, grows the history to min(length + 1, 20), and leaves the sample last |
| Frames.Step | PROJECT/app.py:27-83 | one frame: the history is the next history and the percentages are those of that history. Boxes are drawn for every result of an analysed frame and for none of a failed one. The summary is green or red exactly as happy total >= or < sad total |
| Frames.Run | PROJECT/app.py:19-44 | the history never exceeds 20 samples over any run of frames |
| Frames.Successes | PROJECT/app.py:27-44 | definition of the samples appended by a run, one per analysed frame and none per failed one; its properties are in Frames.RunIsAppendAll |
| Frames.RunIsAppendAll | PROJECT/app.py:27-44 | a run of frames is the bounded deque fed the samples of the analysed frames only |
| Frames.RunKeepsNewest | PROJECT/app.py:15-16 | after any run the history is the newest 20 samples of the analysed frames, oldest first, of length min(old + analysed, 20) |
| Frames.FullAfterTwentyFrames | PROJECT/app.py:15-16 | after 20 or more analysed frames the history holds exactly 20 samples, the last 20 |
| Frames.Reports | PROJECT/app.py:19-87 | the loop yields one report per frame |
| Frames.ReportsSnoc | PROJECT/app.py:19-87 | the report of one more frame is computed from the history the previous frames left |
| Frames.FailedFrameRepeatsSummary | PROJECT/app.py:64-77 | a frame whose analysis fails reports the same history, percentages and summary colour as the frame before it |
| Frames.UncountedFrameKeepsSplit | PROJECT/app.py:36-44 | a frame with only other labels, added to a history with room, grows the history by one and leaves both percentages unchanged |
| Frames.UncountedFrameWhenFull | PROJECT/app.py:44 | a frame with only other labels, added to a full history, takes exactly the evicted sample's faces out of the totals |
| Frames.Stream | PROJECT/app.py:19-22 | the stream has one report per captured frame and stops exactly at the first failed camera read |
| Frames.StreamIsReports | PROJECT/app.py:19-23 | up to the first failed read, the stream's reports are those of the frame loop |
| Frames.CapacityThreeScenario | PROJECT/app.py:69-77 | with capacity 3, pushing (1,0), (0,1), (1,0) gives 200/3 % happy and 100/3 % sad. A fourth sample (0,1) evicts the first and gives 100/3 % and 200/3 % |

## Left out

- Aggregate.Percent: computes with exact reals. It does not model IEEE double rounding or the one-decimal text formatting on line 85, because these only affect the displayed text.
- Flask app, routes and the multipart response framing (lines 3, 9, 93-105): HTTP transport, not logic.
- `cv2.VideoCapture`, the frame pixels, `cv2.rectangle`, `cv2.putText` and `cv2.imencode` (lines 12, 60-62, 86-91): device I/O and rendering through a foreign library. Only the result of `camera.read` (a frame or a failed read) and the colour choices are modelled.
- `DeepFace.analyze` and the wrapping of a single result into a list (lines 29-33): an opaque model, represented by the `Analyzed(labels)` / `Failed` input. Each result is reduced to its `dominant_emotion` string. Its `region` is drawn only.
- Exceptions raised in the drawing loop after the append (for example a result without a `region` key, lines 48-62): the sample is already appended, so the history and percentages are those of `Analyzed`. Only the set of boxes drawn would be cut short, and drawing is not modelled.
- The `print` of the caught exception (line 65): console output.
- Concurrent streams: `camera` and `emotion_history` are module globals (lines 12, 16) and every `/video` request runs its own `generate_frames` (lines 100-102) on Flask's threaded server, so two open streams append to one deque, and one stream may append between another's append (line 44) and its sums (lines 69-70). The model assumes one stream at a time; the initial history `h` of `Frames.Run`, `Frames.Reports` and `Frames.Stream` stands for whatever an earlier stream left in the deque.
