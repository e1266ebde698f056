# figneuro core, modelled in Dafny

figneuro builds neuroscience figures out of views. A Python side serialises
view data and figure layouts. A TypeScript/React side shows the figures.
This project models the deterministic core of both sides and proves what it
promises:

- **Timeseries selection** (`selection.dfy`, module `TimeseriesSelection`).
  This is the shared time-range state of all time-scrolled views: timeseries
  bounds, visible window, focus time and focus interval, every field
  optional. Each transition (initialize, pan by percent or by Δt, zoom,
  set-visible-range, set-current-time, set-current-time-interval) is a
  function from the old state and an action to the new state. The validity
  check and the reducer are modelled too.
- **Sparse spectrogram encoding** (`sparse_spectrogram.dfy`). A loop
  run-length encodes a flattened spectrogram as values and index deltas. It
  is proved against a decoder.
- **View tree and figure URL** (`view.dfy`). This covers the `View` class
  with its pre-order traversal, the in-place renumbering of the views' ids,
  the list of non-layout views, random ids and query-string parsing.
- **QJB1 video container** (`qjb1.dfy`). A file buffer class is written in
  this order: the magic line, the JSON header line, a zeroed index of
  little-endian 32-bit frame sizes, the JPEG frames, and then the index
  rewritten in place after a seek.
- **Length-prefixed JSONL texts** for annotations (`annotations.dfy`) and
  position-decode fields (`position_decode_field.dfy`). Both share
  `json.dfy` and `strings.dfy`, and base64 lives in `bytes.dfy`.
- **`AnnotatedVideo.to_dict`** (`annotated_video.dfy`).
- **Firing-rates plot** (`firing_rates.dfy`). It covers bin count, spike
  binning, three-bin smoothing, visible segments, the heat-map colours, the
  in-place sort of the plots and the panels.
- **Video fitting and layout**:
  - `letterbox.dfy` holds the fit shared by the camera view and the
    annotated-video view;
  - `annotated_video_area.dfy` holds the bottom bar, the legend and the
    node colours;
  - `time_scroll_view.dfy` holds the sizes of the scroll view, the
    highlight layer and the annotation in-range filter with its split by
    type.
- **QJB1 canvas** (`qjb1_canvas.dfy`). It covers the frame shown at a time,
  bytes to a binary string, `btoa`, and the JPEG data URL.

Times, sizes and rates are `real`; counts and byte values are `int`/`nat`.
Foreign functions are parameters of the members that use them: JSON dumping,
`idToNum`, `getNodeColor` and the time-to-pixel projection.

## Model

| member | source | states |
|---|---|---|
| TimeseriesSelection.SelectionIsValid | figneuro-views/src/general/context-timeseries-selection/TimeseriesSelectionContext.ts:17-42 | valid exactly when all four bounds are defined, both timeseries bounds are non-negative and ordered, the window is ordered, and the window lies inside the timeseries |
| TimeseriesSelection.ValidityIgnoresFocus | figneuro-views/src/general/context-timeseries-selection/TimeseriesSelectionContext.ts:36-41 | validity does not depend on the focus time or the focus interval |
| TimeseriesSelection.InitializeTimes | figneuro-views/src/general/context-timeseries-selection/TimeseriesSelectionContext.ts:224-235 | bounds become the new ones when unset, else they only widen towards the new ones; a set window is kept, an unset one takes the new bounds; focus and interval are dropped |
| TimeseriesSelection.InitializeDefaultValid | figneuro-views/src/general/context-timeseries-selection/TimeseriesSelectionContext.ts:224-235 | from the empty state the result shows the whole range, and it is valid iff 0 <= start <= end (otherwise it is still returned) |
| TimeseriesSelection.InitializeKeepsValid | figneuro-views/src/general/context-timeseries-selection/TimeseriesSelectionContext.ts:224-235 | initializing a valid state with ordered non-negative times keeps it valid and keeps its window |
| TimeseriesSelection.InitializeIdempotent | figneuro-views/src/general/context-timeseries-selection/TimeseriesSelectionContext.ts:224-235 | initializing twice with the same times is the same as initializing once |
| TimeseriesSelection.PanTimeHelper | figneuro-views/src/general/context-timeseries-selection/TimeseriesSelectionContext.ts:237-265 | an uninitialized state or a zero displacement is returned as is; only the window changes; from a valid state the result is valid with the same window length, and its end (forward) or start (back) is the displaced bound clamped to the timeseries |
| TimeseriesSelection.PanTime | figneuro-views/src/general/context-timeseries-selection/TimeseriesSelectionContext.ts:267-275 | an uninitialized state is returned as is; otherwise the helper is applied to pct/100 of the window length, negated for panning back |
| TimeseriesSelection.PanTimeDeltaT | figneuro-views/src/general/context-timeseries-selection/TimeseriesSelectionContext.ts:277-284 | the helper is applied to Δt itself |
| TimeseriesSelection.PanDirectionRespected | figneuro-views/src/general/context-timeseries-selection/TimeseriesSelectionContext.ts:242-252 | from a valid state with a non-negative percentage, panning forward never moves the window start back and panning back never moves it forward |
| TimeseriesSelection.ZoomMultiplier | figneuro-views/src/general/context-timeseries-selection/TimeseriesSelectionContext.ts:298-300 | the factor defaults to 1.4; zooming out multiplies the window by it and zooming in by its inverse |
| TimeseriesSelection.ZoomTime | figneuro-views/src/general/context-timeseries-selection/TimeseriesSelectionContext.ts:286-329 | an uninitialized state, or a zoom-out of a window that already covers the timeseries, is returned as is; otherwise the window is resized to the requested length; only the window changes, and validity is kept |
| TimeseriesSelection.ZoomTo | figneuro-views/src/general/context-timeseries-selection/TimeseriesSelectionContext.ts:301-328 | the new window length is exactly min(requested, timeseries length), only the window changes, and a valid state stays valid |
| TimeseriesSelection.PlaceWindow | figneuro-views/src/general/context-timeseries-selection/TimeseriesSelectionContext.ts:318-323 | the two-pass clamp: the end is min(max(start, tsStart) + w, tsEnd), the placed window has length exactly w, and a start that needs no clamping is kept |
| TimeseriesSelection.ZoomUnclamped | figneuro-views/src/general/context-timeseries-selection/TimeseriesSelectionContext.ts:312-323 | when no clamping is needed, the window starts at anchor minus fraction times new length and has the new length |
| TimeseriesSelection.ZoomKeepsAnchorFraction | figneuro-views/src/general/context-timeseries-selection/TimeseriesSelectionContext.ts:312-323 | an unclamped zoom keeps the focus time at the same fraction of the window |
| TimeseriesSelection.ZoomToKeepsAnchorFraction | figneuro-views/src/general/context-timeseries-selection/TimeseriesSelectionContext.ts:312-323 | resizing to any length shorter than the timeseries without clamping keeps the focus fraction |
| TimeseriesSelection.ZoomInRequest | figneuro-views/src/general/context-timeseries-selection/TimeseriesSelectionContext.ts:298-301 | zooming in by f >= 1 asks for the window length divided by f |
| TimeseriesSelection.ZoomInAboutFocus | figneuro-views/src/general/context-timeseries-selection/TimeseriesSelectionContext.ts:298-323 | zooming in about a non-zero focus inside the window, to a window shorter than the timeseries, shrinks the distances from the focus to the window start by f, divides the length by f, keeps the focus, and stays valid |
| TimeseriesSelection.ZoomOutAfterIn | figneuro-views/src/general/context-timeseries-selection/TimeseriesSelectionContext.ts:294-323 | zooming out by f from a window of length cw/f that starts offset/f before the focus gives the window of length cw that starts offset before the focus, when that window fits in the timeseries |
| TimeseriesSelection.ZoomInThenOut | figneuro-views/src/general/context-timeseries-selection/TimeseriesSelectionContext.ts:286-329 | when the zoomed-in window is shorter than the timeseries, zooming in and then out by the same factor about a focus inside the window restores the window |
| TimeseriesSelection.ZoomInOfFullWindow | figneuro-views/src/general/context-timeseries-selection/TimeseriesSelectionContext.ts:301-310 | a zoom-in that asks for at least the whole timeseries only happens on a full window, and leaves the state unchanged |
| TimeseriesSelection.ZoomInOutRestores | figneuro-views/src/general/context-timeseries-selection/TimeseriesSelectionContext.ts:286-329 | from a valid state with a non-zero focus strictly inside the window, zoom-in then zoom-out by the same f >= 1 restores the window |
| TimeseriesSelection.SetVisibleTimeRange | figneuro-views/src/general/context-timeseries-selection/TimeseriesSelectionContext.ts:331-337 | the window becomes exactly the given range and no other field changes |
| TimeseriesSelection.SetVisibleTimeRangeValidity | figneuro-views/src/general/context-timeseries-selection/TimeseriesSelectionContext.ts:331-337 | the result is valid iff the timeseries bounds are set, non-negative and ordered, and the range is ordered and inside them: there is no clamping |
| TimeseriesSelection.SetVisibleTimeRangeCanInvalidate | figneuro-views/src/general/context-timeseries-selection/TimeseriesSelectionContext.ts:331-337 | a valid state of 0..100 s given the range 50..150 s becomes invalid |
| TimeseriesSelection.Recentre | figneuro-views/src/general/context-timeseries-selection/TimeseriesSelectionContext.ts:344-358 | the recentred window keeps the span, is centred on t when that fits, lies inside the timeseries when the span does, and contains t when t is inside the timeseries |
| TimeseriesSelection.AutoScroll | figneuro-views/src/general/context-timeseries-selection/TimeseriesSelectionContext.ts:342-360 | with auto-scroll on and a target outside the window, the window becomes the recentred one; otherwise nothing changes |
| TimeseriesSelection.AutoScrollKeepsValid | figneuro-views/src/general/context-timeseries-selection/TimeseriesSelectionContext.ts:342-360 | auto-scrolling from a valid state gives a valid state with the same window length |
| TimeseriesSelection.SetCurrentTime | figneuro-views/src/general/context-timeseries-selection/TimeseriesSelectionContext.ts:339-370 | the result is the old state or a valid one, an uninitialized state is returned as is, and the timeseries bounds never change |
| TimeseriesSelection.SetCurrentTimeFromValid | figneuro-views/src/general/context-timeseries-selection/TimeseriesSelectionContext.ts:339-370 | from a valid state the result is valid with the same window length; shift with a prior focus keeps the focus and selects [min, max] of the two times, otherwise the focus is t and the interval is cleared; the window is unchanged unless auto-scroll is on and t lies outside it, and then it is exactly the window recentred on t (shifted back from the timeseries end, then forward from its start), which contains t when t is inside the timeseries |
| TimeseriesSelection.SetCurrentTimeCentres | figneuro-views/src/general/context-timeseries-selection/TimeseriesSelectionContext.ts:342-358 | the window 50..100 s in 0..200 s, auto-scrolled to 150 s, becomes 125..175 s |
| TimeseriesSelection.SetCurrentTimeInterval | figneuro-views/src/general/context-timeseries-selection/TimeseriesSelectionContext.ts:372-396 | the result is the old state or a valid one, an uninitialized state is returned as is, and the focus time never changes |
| TimeseriesSelection.SetCurrentTimeIntervalFromValid | figneuro-views/src/general/context-timeseries-selection/TimeseriesSelectionContext.ts:372-396 | from a valid state the interval is set, and validity and window length are kept; the window is unchanged unless auto-scroll is on and the interval's midpoint lies outside it, and then it is exactly the window recentred on the midpoint, which contains the midpoint when that is inside the timeseries |
| TimeseriesSelection.Reduce | figneuro-views/src/general/context-timeseries-selection/TimeseriesSelectionContext.ts:203-222 | the electrode-selection action leaves the state unchanged, and only initialize can change the timeseries bounds |
| TimeseriesSelection.ReducePreservesValidity | figneuro-views/src/general/context-timeseries-selection/TimeseriesSelectionContext.ts:203-222 | every action except set-visible-range, and initialize with ordered non-negative times, keeps a valid state valid |
| TimeseriesSelection.ReduceAllPreservesValidity | figneuro-views/src/general/context-timeseries-selection/TimeseriesSelectionContext.ts:203-222 | any sequence of such actions keeps a valid state valid |
| TimeseriesSelection.InitializeThenPanScenario | figneuro-views/src/general/context-timeseries-selection/TimeseriesSelectionContext.ts:224-265 | initializing 0..100 s shows 0..100 s, and a 10% forward pan of it changes nothing, because the window is already at the end |
| TimeseriesSelection.ZoomInScenario | figneuro-views/src/general/context-timeseries-selection/TimeseriesSelectionContext.ts:286-329 | zooming 0..100 s in by 2 without a focus gives 25..75 s |
| SparseAudioSpectrogram.Decode | figneuro/saneslab/views/SparseAudioSpectrogram.py:41-55 | the decoder of the representation always has the requested length |
| SparseAudioSpectrogram.GetSparseRepresentation | figneuro/saneslab/views/SparseAudioSpectrogram.py:41-55 | the first entry is (vec[0], 0); values and deltas have equal length; every later delta is at least 1 and at most max_delta; every later value is non-zero unless its delta is max_delta; the positions stay below len(vec), with fewer than max_delta trailing zeros; and decoding gives back vec |
| SparseAudioSpectrogram.DecodeAt | figneuro/saneslab/views/SparseAudioSpectrogram.py:41-55 | the running sum of the first k+1 deltas is a position below n where the decoded vector holds values[k] |
| SparseAudioSpectrogram.DecodeElsewhere | figneuro/saneslab/views/SparseAudioSpectrogram.py:41-55 | the decoded vector is zero at every position that no running sum reaches |
| SparseAudioSpectrogram.PositionsIncrease | figneuro/saneslab/views/SparseAudioSpectrogram.py:50-53 | with deltas of at least 1 after the first, the positions strictly increase |
| SparseAudioSpectrogram.FlattenAt | figneuro/saneslab/views/SparseAudioSpectrogram.py:16-18 | the C-order flattening of an Nt × Nf array holds entry [t][f] at t·Nf + f |
| SparseAudioSpectrogram.ToDict | figneuro/saneslab/views/SparseAudioSpectrogram.py:15-37 | the type tag, numTimepoints = rows, numFrequencies = columns, the sampling frequency, and the representation decodes to the C-order flattening |
| Views.RandomId | figneuro/views/View.py:102-103 | the last min(12, length) characters of the UUID text |
| Views.RandomIdOfUuid | figneuro/views/View.py:102-103 | for a canonical UUID text the id is 12 hex digits |
| Views.View.constructor | figneuro/views/View.py:13-16 | type, layout flag and children as given, and a random id |
| Views.View.Descendants | figneuro/views/View.py:27-33 | the view itself comes first in its pre-order |
| Views.View.GetDescendantViewsIncludingSelf | figneuro/views/View.py:27-33 | returns the view followed by each child's descendants in child order |
| Views.View.Url | figneuro/views/View.py:37-53 | every descendant's id becomes the decimal string of its pre-order index, and the views list is built from the renumbered descendants |
| Views.AssignIds | figneuro/views/View.py:40-41 | the loop sets each view's id to its index as a decimal string; a view listed twice keeps the last index |
| Views.ListViews | figneuro/views/View.py:45-52 | the list of (type, id) of the non-layout views, in order |
| Views.ViewListMembers | figneuro/views/View.py:45-52 | an entry is in the list iff it belongs to a non-layout view, and the list is no longer than the views |
| Views.DistinctTreeIds | figneuro/views/View.py:40-41 | distinct views get their own index as id, so their ids differ |
| Views.LeafDescendants | figneuro/views/View.py:27-33 | a view without children is its own only descendant |
| Views.IndexOf | figneuro/views/View.py:106 | the first occurrence of the character, or none when absent |
| Views.ParseFigurlUrl | figneuro/views/View.py:105-114 | fails exactly when the URI has no '?'; otherwise the query map of the pieces after the first '?' |
| Views.QueryMapBinding | figneuro/views/View.py:108-114 | a key is bound iff some piece splits on '=' into exactly that key and one value, and the last such piece decides the value |
| Views.QueryMapKeys | figneuro/views/View.py:110-113 | a key is in the map iff some piece binds it |
| Views.QueryMapLast | figneuro/views/View.py:110-113 | the last piece that binds a key gives its value |
| Strings.Split | figneuro/views/View.py:108 | splitting gives at least one piece and no piece contains the separator |
| Strings.SplitJoin | figneuro/misc/views/create_annotations_uri.py:55 | splitting a join of separator-free pieces on the separator gives the pieces back |
| Strings.JoinLength | figneuro/misc/views/create_annotations_uri.py:55 | a join is as long as its pieces plus one separator between each two |
| Jsonl.Framing | figneuro/misc/views/create_annotations_uri.py:55 | the joined text opens with the header, has a newline after it when there are records, and its length is the header's plus each record's plus one newline per record |
| Decimal.NatToString | figneuro/views/View.py:41 | the decimal text of a number: digits only, no leading zero |
| Decimal.ParseNatToString | figneuro/views/View.py:41 | reading the decimal text back gives the number |
| Decimal.NatToStringInjective | figneuro/views/View.py:41 | different numbers have different decimal texts |
| Qjb1.FileBuffer.constructor | figneuro/misc/experimental/create_qjb1.py:40 | a newly opened file is empty, positioned at 0 |
| Qjb1.FileBuffer.Write | figneuro/misc/experimental/create_qjb1.py:42-44 | writing overwrites from the position, extending the file as needed, and advances the position by the data length |
| Qjb1.FileBuffer.Seek | figneuro/misc/experimental/create_qjb1.py:67 | seeking moves the position and leaves the contents alone |
| Qjb1.Overwrite | figneuro/misc/experimental/create_qjb1.py:66-70 | the bytes at [pos, pos+len) are the data, other bytes are kept, and a gap is zero-filled |
| Qjb1.OverwriteAppend | figneuro/misc/experimental/create_qjb1.py:42-64 | writing at the end appends |
| Qjb1.OverwriteBlock | figneuro/misc/experimental/create_qjb1.py:66-70 | overwriting a block of equal length replaces only that block |
| Qjb1.Ascii | figneuro/misc/experimental/create_qjb1.py:42-43 | UTF-8 of an ASCII text: one byte per character, with the character's code |
| Qjb1.NumFrames | figneuro/misc/experimental/create_qjb1.py:27-28 | without a duration, the frame count; with one, int(duration × fps) |
| Qjb1.Header | figneuro/misc/experimental/create_qjb1.py:31-38 | exactly the keys format = "qjb1", video_width, video_height, frames_per_second, num_frames and quality, with their values |
| Qjb1.Index | figneuro/misc/experimental/create_qjb1.py:68-70 | four bytes per frame |
| Qjb1.Preamble | figneuro/misc/experimental/create_qjb1.py:41-44 | the magic line, the header text and a newline |
| Qjb1.CreateQjb1 | figneuro/misc/experimental/create_qjb1.py:40-70 | succeeds iff every frame is shorter than 2^32 bytes, and then the file is exactly preamble, index of sizes, frames; otherwise it stops at the first oversized frame with the index rewritten up to it |
| Qjb1.WritePreamble | figneuro/misc/experimental/create_qjb1.py:41-44 | the file holds the preamble and the position is at its end |
| Qjb1.WriteIndexPlaceholder | figneuro/misc/experimental/create_qjb1.py:46-51 | appends four zero bytes per frame |
| Qjb1.WriteFrames | figneuro/misc/experimental/create_qjb1.py:53-64 | appends the frames in order and records each one's size |
| Qjb1.RewriteIndex | figneuro/misc/experimental/create_qjb1.py:66-70 | the in-place rewrite succeeds iff all sizes fit 32 bits, and then gives the complete file; otherwise it stops at the first size that does not fit |
| Qjb1.RewriteStep | figneuro/misc/experimental/create_qjb1.py:68-70 | writing entry j over the zeros turns the file rewritten up to j into the file rewritten up to j+1 |
| Qjb1.IndexEntry | figneuro/misc/experimental/create_qjb1.py:68-70 | index entry j is the little-endian encoding of frame j's size and decodes to it |
| Qjb1.Qjb1StartsWithMagic | figneuro/misc/experimental/create_qjb1.py:42 | the file begins with the magic line |
| Qjb1.Qjb1IndexEntry | figneuro/misc/experimental/create_qjb1.py:48-70 | the 4 bytes at byte_num + 4j decode to the size of frame j |
| Qjb1.Qjb1FrameAt | figneuro/misc/experimental/create_qjb1.py:53-64 | frame j lies at byte_num + 4·num_frames + the sizes of the frames before it |
| Qjb1.RewriteOnlyIndex | figneuro/misc/experimental/create_qjb1.py:66-70 | the rewrite changes no byte outside the index region |
| Bytes.LE32 | figneuro/misc/experimental/create_qjb1.py:70 | four bytes |
| Bytes.LE32RoundTrip | figneuro/misc/experimental/create_qjb1.py:70 | the little-endian unsigned encoding of a 32-bit value decodes back to it |
| Bytes.Uint16sToBytes | figneuro/misc/views/create_position_decode_field_uri.py:50 | two bytes per element |
| Bytes.Uint16sToBytesAt | figneuro/misc/views/create_position_decode_field_uri.py:50 | element k is the little-endian pair of bytes 2k and 2k+1 |
| Base64.EncodeLength | figneuro-views/src/misc/view-annotated-video/Qjb1View/Qjb1ViewCanvas.tsx:73 | base64 of n bytes has 4·ceil(n/3) characters |
| Base64.EncodeAlphabet | figneuro/misc/views/create_position_decode_field_uri.py:50 | every character is from the base64 alphabet or the pad '=' |
| Base64.DecodeEncode | figneuro/misc/views/create_position_decode_field_uri.py:50 | decoding the base64 text gives back the bytes |
| Annotations.ElementDict | figneuro/misc/views/create_annotations_uri.py:18-23 | keys t, i and the data's keys, with the data's values taking precedence as in a later `**` entry |
| Annotations.NodeElement | figneuro/misc/views/create_annotations_uri.py:25-27 | a node has type n, the given id, and data holding exactly x and y, so neither data key clashes with t or i |
| Annotations.EdgeElement | figneuro/misc/views/create_annotations_uri.py:29-31 | an edge has type e, the given id, and data holding exactly i1 and i2, so neither data key clashes with t or i |
| Annotations.NodeRecord | figneuro/misc/views/create_annotations_uri.py:25-27 | a node element's record is {t: "n", i: id, x, y} |
| Annotations.EdgeRecord | figneuro/misc/views/create_annotations_uri.py:29-31 | an edge element's record is {t: "e", i: id, i1, i2} |
| Annotations.FrameDict | figneuro/misc/views/create_annotations_uri.py:42 | {e: the element records in order} |
| Annotations.HeaderDict | figneuro/misc/views/create_annotations_uri.py:50-54 | recordByteLengths[k] is the length of record k |
| Annotations.RecordOfFrame | figneuro/misc/views/create_annotations_uri.py:50-55 | slicing the text at the offset the header lengths give recovers frame k's record |
| Annotations.AnnotationsLines | figneuro/misc/views/create_annotations_uri.py:55 | when the dumps contain no newline, the text splits into the header line and one line per frame |
| Annotations.AnnotationsText | figneuro/misc/views/create_annotations_uri.py:41-56 | the text opens with the header line, a newline follows it when there are frames, and nothing follows the last frame's record: the length is the header's plus each record's plus one newline per frame |
| PositionDecodeField.ToArray | figneuro/misc/views/create_position_decode_field_uri.py:9-10 | an array is kept; a list becomes a uint16 array, and fails, as NumPy 2 does, when an item is out of range |
| PositionDecodeField.NewFrame | figneuro/misc/views/create_position_decode_field_uri.py:8-17 | accepted iff both converted inputs are 1-D uint16; otherwise it fails with the first message the checks reach, in the source's order |
| PositionDecodeField.FlatListsAccepted | figneuro/misc/views/create_position_decode_field_uri.py:9-15 | flat lists of uint16 values are always accepted, unchanged |
| PositionDecodeField.FrameFromArrays | figneuro/misc/views/create_position_decode_field_uri.py:12-17 | 1-D uint16 arrays make a frame of exactly those arrays |
| PositionDecodeField.BinDict | figneuro/misc/views/create_position_decode_field_uri.py:25-26 | {x, y, w, h} |
| PositionDecodeField.Uint16ArrayToB64 | figneuro/misc/views/create_position_decode_field_uri.py:49-50 | base64 of 2n bytes has 4·ceil(2n/3) characters |
| PositionDecodeField.B64Decodes | figneuro/misc/views/create_position_decode_field_uri.py:49-50 | the text decodes to 2n bytes whose pair k is element k |
| PositionDecodeField.FrameDict | figneuro/misc/views/create_position_decode_field_uri.py:33 | {i: base64 of the indices, v: base64 of the values} |
| PositionDecodeField.HeaderDict | figneuro/misc/views/create_position_decode_field_uri.py:41-45 | recordByteLengths[k] is the length of record k, the bins in order, and maxValue |
| PositionDecodeField.RecordOfFrame | figneuro/misc/views/create_position_decode_field_uri.py:41-46 | slicing the text at the offset the header lengths give recovers frame k's record |
| PositionDecodeField.FieldLines | figneuro/misc/views/create_position_decode_field_uri.py:46 | when the dumps contain no newline, the text splits into the header line and one line per frame |
| PositionDecodeField.FieldText | figneuro/misc/views/create_position_decode_field_uri.py:32-47 | the text opens with the header line, a newline follows it when there are frames, and nothing follows the last frame's record: the length is the header's plus each record's plus one newline per frame |
| AnnotatedVideo.NodeDict | figneuro/misc/views/AnnotatedVideo.py:9-14 | {id, label, colorIndex} |
| AnnotatedVideo.ToDict | figneuro/misc/views/AnnotatedVideo.py:36-52 | the five fixed keys always appear, and each optional key appears iff its field is truthy |
| AnnotatedVideo.ToDictFixedFields | figneuro/misc/views/AnnotatedVideo.py:37-43 | type is "misc.AnnotatedVideo", the three sizes go through int(), and samplingFrequency is copied |
| AnnotatedVideo.ToDictOptionalFields | figneuro/misc/views/AnnotatedVideo.py:44-51 | present URIs are copied, and present nodes are serialised in order |
| AnnotatedVideo.NodesArray | figneuro/misc/views/AnnotatedVideo.py:49 | one node record per node, in order |
| AnnotatedVideo.EmptyOptionalsOmitted | figneuro/misc/views/AnnotatedVideo.py:44-51 | None, '' and [] are all omitted |
| AnnotatedVideo.NewView | figneuro/misc/views/AnnotatedVideo.py:27-54 | the view type is "misc.AnnotatedVideo", it is not a layout, and it has no child views |
| Numeric.Trunc | figneuro/misc/views/AnnotatedVideo.py:39-41 | int() truncates toward zero |
| Numeric.RoundHalfUp | figneuro-views/src/misc/view-annotated-video/Qjb1View/Qjb1ViewCanvas.tsx:29 | Math.round: the nearest integer, halves rounding up |
| FiringRates.NumBins | figneuro-views/src/saneslab/view-firing-rates-plot/FiringRatesPlotView.tsx:42-44 | ten bins per whole second of the ceiling of the duration, none when the duration is not positive |
| FiringRates.BinOf | figneuro-views/src/saneslab/view-firing-rates-plot/FiringRatesPlotView.tsx:55 | the bin whose tenth of a second contains the spike |
| FiringRates.BinSpikes | figneuro-views/src/saneslab/view-firing-rates-plot/FiringRatesPlotView.tsx:50-57 | the counts per bin of the spikes |
| FiringRates.CountsTotal | figneuro-views/src/saneslab/view-firing-rates-plot/FiringRatesPlotView.tsx:50-57 | the counts sum to the number of spikes whose bin is in range |
| FiringRates.AllSpikesCounted | figneuro-views/src/saneslab/view-firing-rates-plot/FiringRatesPlotView.tsx:54-57 | when every spike's bin is in range, the counts sum to the spike count |
| FiringRates.Window | figneuro-views/src/saneslab/view-firing-rates-plot/FiringRatesPlotView.tsx:60 | the slice [max(i−1, 0), min(i+2, numBins)) contains bin i and has three bins inside and two at the edges |
| FiringRates.Mean | figneuro-views/src/saneslab/view-firing-rates-plot/FiringRatesPlotView.tsx:126-128 | the mean times the number of items is the total, and it is never negative |
| FiringRates.Smooth | figneuro-views/src/saneslab/view-firing-rates-plot/FiringRatesPlotView.tsx:58-61 | the mean of each bin's window |
| FiringRates.MeanBetween | figneuro-views/src/saneslab/view-firing-rates-plot/FiringRatesPlotView.tsx:126-128 | a mean lies between the smallest and largest bound of its items |
| FiringRates.SmoothedBetween | figneuro-views/src/saneslab/view-firing-rates-plot/FiringRatesPlotView.tsx:58-61 | smoothing keeps every value within the counts' bounds |
| FiringRates.SegmentsOf | figneuro-views/src/saneslab/view-firing-rates-plot/FiringRatesPlotView.tsx:90-97 | one segment per bin of [i1, i2), spanning its tenth of a second, with rate smoothed/0.1, and adjacent segments meet |
| FiringRates.BuildSegments | figneuro-views/src/saneslab/view-firing-rates-plot/FiringRatesPlotView.tsx:90-97 | the loop builds exactly those segments |
| FiringRates.PlotSegments | figneuro-views/src/saneslab/view-firing-rates-plot/FiringRatesPlotView.tsx:81-97 | one plot's segments: at most one per bin of the recording, each lying within the recording, each with a non-negative rate |
| FiringRates.VisibleBinsAsWritten | figneuro-views/src/saneslab/view-firing-rates-plot/FiringRatesPlotView.tsx:82-83 | the drawn range as the source computes it, from the absolute visible times, within [0, numBins] |
| FiringRates.VisibleBinsAsWrittenMissesOffsetRecording | figneuro-views/src/saneslab/view-firing-rates-plot/FiringRatesPlotView.tsx:82-83 | a recording of 100..110 s shown whole gets the empty range [999, 100), although bin 0 is visible |
| FiringRates.VisibleBins | figneuro-views/src/saneslab/view-firing-rates-plot/FiringRatesPlotView.tsx:82-83 | the range measured from the recording start, within [0, numBins] |
| FiringRates.VisibleBinsCover | figneuro-views/src/saneslab/view-firing-rates-plot/FiringRatesPlotView.tsx:82-97 | every bin that overlaps the visible range is drawn |
| FiringRates.VisibleBinsNear | figneuro-views/src/saneslab/view-firing-rates-plot/FiringRatesPlotView.tsx:82-83 | every drawn bin is within one bin of the visible range |
| FiringRates.HeatMapColor | figneuro-views/src/saneslab/view-firing-rates-plot/FiringRatesPlotView.tsx:136-138 | hue in [0, 240] and saturation in [0, 100] for inputs in [0, 1], lightness 50 |
| FiringRates.FiringRateToColor | figneuro-views/src/saneslab/view-firing-rates-plot/FiringRatesPlotView.tsx:130-133 | blue and grey at rate 0, full red from 30 Hz up, hue and saturation in range for any non-negative rate |
| FiringRates.ColorMonotone | figneuro-views/src/saneslab/view-firing-rates-plot/FiringRatesPlotView.tsx:130-138 | a higher rate never gets a bluer hue or a lower saturation |
| FiringRates.SortPlots | figneuro-views/src/saneslab/view-firing-rates-plot/FiringRatesPlotView.tsx:49 | sorts the plots in place by idToNum(unitId), ascending, as a permutation |
| FiringRates.UnitIdText | figneuro-views/src/saneslab/view-firing-rates-plot/FiringRatesPlotView.tsx:104-105 | a string id is shown as it is; a numeric id as its decimal digits, after a minus sign exactly when negative, which read back give the number |
| FiringRates.InsertLast | figneuro-views/src/saneslab/view-firing-rates-plot/FiringRatesPlotView.tsx:49 | one insertion step extends the sorted prefix by one and permutes the array |
| FiringRates.BuildPanel | figneuro-views/src/saneslab/view-firing-rates-plot/FiringRatesPlotView.tsx:81-108 | one unit's panel: key and label are the unit id, and the segments come from its binned, smoothed spikes |
| FiringRates.BuildPanels | figneuro-views/src/saneslab/view-firing-rates-plot/FiringRatesPlotView.tsx:81-109 | one panel per plot in order, keyed and labelled by the unit id text, with that plot's segments |
| FiringRates.FiringRatesPlot | figneuro-views/src/saneslab/view-firing-rates-plot/FiringRatesPlotView.tsx:45-123 | the plots end up sorted as a permutation, "Loading" shows iff the visible start is unknown, and otherwise one panel per sorted plot |
| AnnotatedVideoArea.Layout | figneuro-views/src/misc/view-annotated-video/AnnotatedVideoViewArea.tsx:50-61 | a 150-pixel legend iff nodes are given, a 40-pixel bottom bar, the video fitted into the rest, and the legend at the video's right edge |
| AnnotatedVideoArea.LayoutFits | figneuro-views/src/misc/view-annotated-video/AnnotatedVideoViewArea.tsx:50-61 | equal scale on both axes, the video's aspect ratio, the video inside the free space, and the legend ending inside the area |
| AnnotatedVideoArea.ColorsForNodeIds | figneuro-views/src/misc/view-annotated-video/AnnotatedVideoViewArea.tsx:107-116 | empty without nodes, else the colours the loop assigns node by node |
| AnnotatedVideoArea.ColorsKeys | figneuro-views/src/misc/view-annotated-video/AnnotatedVideoViewArea.tsx:107-116 | exactly the node ids get a colour |
| AnnotatedVideoArea.ColorsLastWins | figneuro-views/src/misc/view-annotated-video/AnnotatedVideoViewArea.tsx:110-114 | the last node with an id decides its colour: getNodeColor(colorIndex ?? position) |
| Letterbox.Fit | figneuro-views/src/saneslab/view-camera/CameraViewArea.tsx:20-27 | the height fills when the video is relatively taller, else the width fills, and the rectangle is centred |
| Letterbox.FitKeepsAspect | figneuro-views/src/saneslab/view-camera/CameraViewArea.tsx:20-21 | W/H equals videoWidth/videoHeight |
| Letterbox.FitInside | figneuro-views/src/saneslab/view-camera/CameraViewArea.tsx:20-27 | W <= width, H <= height, one of them fills, the offsets are non-negative, and one offset is 0 |
| Letterbox.FitEqualScale | figneuro-views/src/misc/view-annotated-video/AnnotatedVideoViewArea.tsx:55 | W/videoWidth = H/videoHeight |
| TimeScrollView.PanelWidthSeconds | figneuro-views/src/general/component-time-scroll-view/TimeScrollView.tsx:64 | with both bounds known, the window length; with neither, 0 |
| TimeScrollView.PanelWidthOfValidSelection | figneuro-views/src/general/component-time-scroll-view/TimeScrollView.tsx:64 | for a valid selection it is the non-negative window length |
| TimeScrollView.ToolbarWidth | figneuro-views/src/general/component-time-scroll-view/TimeScrollView.tsx:67 | zero iff the toolbar is hidden or the default width is zero |
| TimeScrollView.Layout | figneuro-views/src/general/component-time-scroll-view/TimeScrollView.tsx:67-85 | effectiveWidth + toolbarWidth = width and perPanelOffset = panelHeight + panelSpacing |
| TimeScrollView.ToolbarAlwaysShown | figneuro-views/src/general/component-time-scroll-view/TimeScrollView.tsx:57 | hideToolbar is hard-wired false, so the effective width is width minus the default toolbar width |
| TimeScrollView.Highlight | figneuro-views/src/general/component-time-scroll-view/TimeScrollView.tsx:124-135 | an empty layer iff no projected span remains; otherwise exactly the spans |
| TimeScrollView.FilterMembers | figneuro-views/src/general/component-time-scroll-view/TimeScrollView.tsx:152-158 | an item is kept iff it was there and passes the test |
| TimeScrollView.TimepointDrawn | figneuro-views/src/general/component-time-scroll-view/TimeScrollView.tsx:152-154 | a timepoint is kept iff timeRange[0] <= t <= timeRange[1] |
| TimeScrollView.IntervalDrawn | figneuro-views/src/general/component-time-scroll-view/TimeScrollView.tsx:155-157 | an interval is kept iff it overlaps the closed range |
| TimeScrollView.AnnotationLayerPartition | figneuro-views/src/general/component-time-scroll-view/TimeScrollView.tsx:159-172 | the two lists are the kept timepoints and the kept intervals in order, with their projected pixels, and their sizes add up to the number kept |
| Qjb1Canvas.CurrentFrame | figneuro-views/src/misc/view-annotated-video/Qjb1View/Qjb1ViewCanvas.tsx:28-29 | the frame nearest to currentTime × fps |
| Qjb1Canvas.CurrentFrameAtFrameTime | figneuro-views/src/misc/view-annotated-video/Qjb1View/Qjb1ViewCanvas.tsx:29 | at frame f's own time, frame f is shown |
| Qjb1Canvas.CurrentFrameNearest | figneuro-views/src/misc/view-annotated-video/Qjb1View/Qjb1ViewCanvas.tsx:29 | frame f shows for every time between the midpoints around it |
| Qjb1Canvas.CharCodes | figneuro-views/src/misc/view-annotated-video/Qjb1View/Qjb1ViewCanvas.tsx:71 | the character codes of a binary string, one per character |
| Qjb1Canvas.BytesToBinaryString | figneuro-views/src/misc/view-annotated-video/Qjb1View/Qjb1ViewCanvas.tsx:66-72 | one character per byte whose code is that byte, so the string's codes are the bytes |
| Qjb1Canvas.Btoa | figneuro-views/src/misc/view-annotated-video/Qjb1View/Qjb1ViewCanvas.tsx:73 | fails iff a character is outside Latin-1; otherwise base64 of the codes |
| Qjb1Canvas.ArrayBufferToBase64 | figneuro-views/src/misc/view-annotated-video/Qjb1View/Qjb1ViewCanvas.tsx:66-74 | the standard base64 of the bytes, of length 4·ceil(n/3) |
| Qjb1Canvas.DataUrl | figneuro-views/src/misc/view-annotated-video/Qjb1View/Qjb1ViewCanvas.tsx:34 | "data:image/jpeg;base64," followed by the encoding |
| Qjb1Canvas.FrameDataUrl | figneuro-views/src/misc/view-annotated-video/Qjb1View/Qjb1ViewCanvas.tsx:33-34 | the data URL of the frame's base64 |
| Qjb1Canvas.DataUrlRoundTrip | figneuro-views/src/misc/view-annotated-video/Qjb1View/Qjb1ViewCanvas.tsx:33-34 | the URL starts with the prefix, and decoding the rest gives back the frame's bytes |

## Left out

- Floating point: times, sizes and rates are exact reals. Rounding, NaN, infinities and the "within some epsilon" concern at the zoom's full-window test are not modelled.
- TimeseriesSelection.ZoomMultiplier: requires a positive zoom factor, for the reason given for `ZoomTime` below.
- TimeseriesSelection.Reduce: requires a zoom action's factor to be positive, for the same reason.
- TimeseriesSelection.ZoomTime: requires a positive zoom factor. The source only asks for at least 1 in a comment, and a zero or negative factor, which gives NaN or negative windows in JavaScript, is not modelled.
- TimeseriesSelection.AnchorFraction uses 0 for an empty window with a non-zero focus, where JavaScript divides by zero. There the source gets a fraction of ±Infinity or NaN, and both new window bounds become NaN. The model instead yields a finite, zero-length window at the clamped anchor.
- A forward pan of a window that already ends at the timeseries end clamps the end there and leaves the state unchanged, as the code does (`InitializeThenPanScenario`).
- React plumbing is not modelled: the context, the hooks, memoisation, JSX layers, MUI widgets and the splitter. Neither are the playback timer, the async frame fetch with its `canceled` flag, and the canvas drawing with its affine transform.
- `usePanelDimensions`, `DefaultToolbarWidth`, `convert1dDataSeries`/`use1dScalingMatrix` and `getNodeColor` live in files that are not part of this model. The toolbar width and the pixel projection are parameters, and so is `getNodeColor`.
- JSON serialisation (`json.dumps`, `simplejson.dumps` with sorted keys, `fig.serialize_data`) is a function parameter `dumps`. Key order and number formatting are therefore not modelled; objects are maps.
- `fig.serialize_data` on element data is taken as the identity on already plain data.
- Uploads and storage (`kcl.store_json`, `kcl.store_text`, `_upload_data_and_return_uri`) and the `figurl` figure object are not modelled. `Views.View.Url` returns the views list that would be uploaded, and `dataUri`, the layout dict and the URL text are left out.
- `child_views` is abstract in `View`; each subclass's children are modelled as a `children` field fixed at construction.
- Views.View.Url: on a non-layout view, `url` wraps the view in a `Box` layout; Box.py is not part of this model, so that wrapping is not modelled.
- `jupyter` and the notebook display hooks are not modelled.
- Video decoding and JPEG encoding (cv2) are not modelled. The frames' JPEG bytes and the frame count are inputs.
- Qjb1.CreateQjb1: with no duration given, the source's frame count stays the float from cv2 and `range` raises, so that call always fails; the model's count is a `nat` and the call writes the file.
- The console output of `create_qjb1` and `to_dict` is not modelled.
- SparseAudioSpectrogram.GetSparseRepresentation: requires a non-empty vector. The function is compiled with numba's `nopython` mode, which does not bounds-check, so `vec[0]` on an empty vector reads out of bounds; that behaviour is not modelled. The numba compilation and the NumPy dtype conversion of the outputs are not modelled; the deltas are proved to fit 1..max_delta.
- FiringRates.BinSpikes: a spike outside the recording has a bin index outside the array. JavaScript then writes NaN to a new property, which no loop reads; the model counts only spikes whose bin is in range.
- FiringRates.PlotSegments: uses the corrected visible-bin range (`VisibleBins`, see Findings), not the range the source computes from the absolute visible times (`VisibleBinsAsWritten`). For a recording that does not start at 0 the model therefore draws segments where the source draws none.
- FiringRates.BuildPanel: its segments come from `PlotSegments`, so it draws the corrected visible-bin range.
- FiringRates.BuildPanels: its panels come from `BuildPanel`, so they draw the corrected visible-bin range.
- FiringRates.FiringRatesPlot: its panels come from `BuildPanels`, so they draw the corrected visible-bin range.
- FiringRates.SortPlots: JavaScript's `sort` is stable, while the model's insertion sort only promises sortedness and a permutation.
- FiringRates.FiringRatesPlot: the colour strings (`hsl(...)`) and the painting of segments are represented by their hue, saturation and lightness numbers.
- Bytes.Uint16sToBytes: NumPy's `tobytes()` uses the host's byte order; the model fixes little-endian, the order of the x86 and ARM hosts the code runs on, and big-endian hosts are not modelled.
- PositionDecodeField.ToArray: follows NumPy 2, which rejects an out-of-range item. Older NumPy wraps the item into uint16 (versions 1.24-1.26 also warn), and that behaviour is not modelled.
- Qjb1Canvas.CurrentFrame: `Math.round` of a negative half rounds up, as modelled; the frame fetch itself is not modelled.

## Findings

| source | as written | input that shows it | evidently intended | confidence | as-written member | corrected member |
|---|---|---|---|---|---|---|
| figneuro-views/src/saneslab/view-firing-rates-plot/FiringRatesPlotView.tsx:82-83 | the first and last drawn bins are computed from the absolute visible times, although bin ii starts at startTimeSec + ii·0.1 | a recording of 100..110 s with the whole range visible: i1 = 999, i2 = 100, so no segment is drawn | measure the visible times from the recording start, so that every visible bin is drawn | not executed | FiringRates.VisibleBinsAsWrittenMissesOffsetRecording | FiringRates.VisibleBinsCover |
