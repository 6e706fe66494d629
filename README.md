# Construction-safety dashboard: a Dafny model of its decision logic

The dashboard (`Dashboard_Model/app.py`) is a Gradio app. It downloads a video, runs a
helmet detector over each frame, counts what it sees, and reports two things: "key
moments", at most one per class every two seconds, and a helmet-compliance percentage.
It also keeps a small user store behind a login. This project models the logic behind
those features and proves what it promises:

- `Detection`: the per-frame aggregation loop of `process_video`, as two nested loops
  (`Aggregate`, `TallyFrame`) over the detector's output. They are proved against a
  class-by-class reference definition (`ByClass`, `Moments`). Further lemmas show that
  key moments are strictly increasing and more than two seconds apart, that a class's
  first detection is always one, that every detection lies within two seconds after one,
  that the counts are the number of detections, and that one frame adds at most one key
  moment per class.
- `Reporting`: the compliance percentage, `format_timestamp` (MM:SS) and the summary
  figures.
- `Fetch`: the URL dispatch of `download_video`.
- `Metadata`: where the class labels are found in the YAML metadata.
- `Pipeline`: `process_video`'s guards in order, then the loop and the summary.
- `Accounts`: the user store as a class. It holds `login_user`, `add_new_user`,
  `update_user_details` and `delete_user_by_name`.
- `Text`: decimal rendering (`{n:02d}`) and Python's substring `in`.
- `Common`: `Option` and `Result`.

Time is kept exactly, in ticks. Frame `frame_count` has tick `frame_count + 1`, and its
time is `tick / fps` seconds. The source's test `(frame_count + 1) / fps - last > 2`
becomes `tick - lastTick > 2 * fps`, and the initial `last_moment_time` of -5 s becomes
the tick `-5 * fps`. `TickTestIsExact` proves the two tests agree for every `fps > 0`.

An example worked through the code: 30 fps, Hardhat detections in frames 10, 11 and 40,
and a NO-Hardhat detection in frame 70. Frame 40 is 30 frames (1 s) after frame 10's key
moment, so Hardhat has one key moment, NO-Hardhat has one, and compliance is 50 %
(`HelmetScenario`).

## Model

| member | source | states |
|---|---|---|
| `Detection.Moments` | Dashboard_Model/app.py:146-163 | A class's key moments: each detection tick is kept when it is more than 2 s (2·fps ticks) after the last kept one, starting from -5 s. There are never more key moments than detections. |
| `Detection.TallyFrame` | Dashboard_Model/app.py:157-163 | The inner loop over one frame's detections. It fails at an unknown class index (`class_names[i]` raises) or, with 0 fps, at the first detection (the division raises). With 0 fps the error is UnknownClass exactly when the frame's first class index is unknown, and ZeroFps otherwise. Otherwise the three dicts describe every detection so far, class by class, and `last_moment_time` holds each class's last key moment. |
| `Detection.Aggregate` | Dashboard_Model/app.py:145-163 | The loop over `range(total_frames)`, stopping when the capture runs out of frames. It succeeds exactly when every class index read is known and fps is positive (or nothing was detected). The error is UnknownClass whenever fps > 0. With 0 fps it is UnknownClass exactly when the first detection read has an unknown class index, and ZeroFps otherwise. On success, `detection_stats` and `key_moments` equal the class-by-class reference over all detections read. |
| `Detection.StepByClass` | Dashboard_Model/app.py:158-163 | One loop step (count + 1, and a key moment if the gap exceeds 2 s) turns a tally describing detections `es` into one describing `es` plus the new detection. |
| `Detection.TallyStep` | Dashboard_Model/app.py:158-163 | The same step on the three dicts also keeps `last_moment_time[c]` equal to the last key moment of `c`, or -5 s when `c` has none. |
| `Detection.MomentsWellSpaced` | Dashboard_Model/app.py:160-163 | Key moments are strictly increasing, and consecutive ones are more than 2·fps ticks apart. |
| `Detection.FirstDetectionIsKeyMoment` | Dashboard_Model/app.py:146-163 | With `last_moment_time` starting at -5 s, a class's first detection always becomes its first key moment. |
| `Detection.EveryDetectionCovered` | Dashboard_Model/app.py:160-163 | For detections in frame order, every detection lies at or within 2 s after some key moment of its class. |
| `Detection.RepeatedTickAddsNothing` | Dashboard_Model/app.py:160-163 | A detection at the same tick as the previous one adds no key moment. |
| `Detection.OneFrameOneMoment` | Dashboard_Model/app.py:157-163 | k ≥ 1 detections of one class in one frame give the same key moments as one detection would, so they add at most one. |
| `Detection.FrameTicks` | Dashboard_Model/app.py:157-160 | A frame adds its tick to class `c` once for each of its detections labelled `c`. |
| `Detection.FrameAddsAtMostOneMoment` | Dashboard_Model/app.py:157-163 | Whatever came before, one frame adds at most one key moment to each class. |
| `Detection.FirstDetectionAt` | Dashboard_Model/app.py:148-160 | When frame f holds the first detection read, the first detection has an unknown class index exactly when frame f's first index is unknown. |
| `Detection.TicksCountDetections` | Dashboard_Model/app.py:148-159 | Over all frames read, a class has as many ticks as detections. |
| `Detection.EventTicks` | Dashboard_Model/app.py:148-160 | Detection ticks run from 1 to the number of frames read and never decrease. |
| `Detection.TicksOfInOrder` | Dashboard_Model/app.py:148-160 | Filtering the detections by class keeps the ticks in order. |
| `Detection.MomentsAreTicks` | Dashboard_Model/app.py:161-162 | Every key moment is the tick of one of the class's detections. |
| `Detection.TickTestIsExact` | Dashboard_Model/app.py:146-161 | For fps > 0, the test on seconds `tick/fps - last/fps > 2` holds exactly when `tick - last > 2·fps`, and the start tick -5·fps is -5 s. |
| `Detection.KeyMomentGuarantees` | Dashboard_Model/app.py:145-163 | After the loop, for every class: `detection_stats[c]` is the number of `c` detections; its key moments are strictly increasing and more than 2 s apart, measured in seconds too; there are no more of them than detections; the first detection is one; and every detection is covered by one. |
| `Reporting.SafetyCompliance` | Dashboard_Model/app.py:188-189 | The compliance lies in [0, 100] and is 0 with no helmet-status moments. Otherwise it times the total equals 100 × hardhat. It is 100 exactly when there are helmet moments and no bare-head ones, and 0 exactly when there are no helmet moments. |
| `Reporting.RatioBounds` | Dashboard_Model/app.py:189 | A part over a positive whole, times 100, lies in [0, 100]. It is 100 exactly for the whole and 0 exactly for nothing. |
| `Reporting.SplitTimestamp` | Dashboard_Model/app.py:70-71 | `seconds // 60` and `int(seconds % 60)`: the seconds field lies in [0, 60), minutes·60 + seconds is the floor of the time, and minutes are non-negative for a non-negative time. |
| `Reporting.FormatTimestamp` | Dashboard_Model/app.py:68-72 | The text is at least five characters, with a colon before the last two. |
| `Reporting.FormatTimestampReadsBack` | Dashboard_Model/app.py:68-72 | For a non-negative time, the minute digits (at least two, with no leading zero beyond two) and the two second digits (below 60) read back as the time's whole seconds. |
| `Reporting.FormatTimestampWidth` | Dashboard_Model/app.py:72 | A time under 100 minutes renders as exactly MM:SS. |
| `Reporting.Summarize` | Dashboard_Model/app.py:184-194 | It fails exactly when fps is 0 (`total_frames / fps`). People and helmet figures are key-moment counts, compliance is computed from those counts, and a chart is drawn exactly when something was detected. |
| `Reporting.SummaryFacts` | Dashboard_Model/app.py:171-194 | For a finished loop, each reported figure is at most the class's detection count and positive exactly when the class was detected. The compliance lies in [0, 100], and a chart is drawn exactly when some class has a detection. |
| `Reporting.SummaryDuration` | Dashboard_Model/app.py:192 | The reported duration reads back as `total_frames / fps` whole seconds. |
| `Reporting.FloorOfQuotient` | Dashboard_Model/app.py:192 | The floor of the real quotient of two naturals is their integer quotient. |
| `Reporting.LabelHasTicks` | Dashboard_Model/app.py:159-171 | A class that is a key of `detection_stats` has at least one detection. |
| `Reporting.HelmetScenario` | Dashboard_Model/app.py:145-189 | Hardhat at frames 10, 11 and 40 at 30 fps gives one key moment. NO-Hardhat at frame 70 gives one. Compliance is 50 %. |
| `Text.Pad2` | Dashboard_Model/app.py:72 | `{n:02d}`: at least two characters; exactly two for 0 ≤ n < 100; for n ≥ 0, the digits read back as n, with no leading zero from 10 up; for n < 0, a `-` followed by the digits of -n without a leading zero. |
| `Text.ValueOfDigits` | Dashboard_Model/app.py:72 | The decimal digits of n read back as n. |
| `Text.ContainsIsOccurrence` | Dashboard_Model/app.py:81 | The recursive substring test holds exactly when the substring occurs at some index. |
| `Fetch.Dispatch` | Dashboard_Model/app.py:81-90 | A URL mentioning `youtube.com` or `youtu.be` goes to YouTube. Otherwise, one mentioning `drive.google.com` goes to Drive. Anything else is refused. |
| `Fetch.ShortLinkIsYouTube` | Dashboard_Model/app.py:81 | The example link `https://youtu.be/abc` goes to YouTube (the general rule is `Dispatch`'s contract). |
| `Fetch.DriveLinkIsDrive` | Dashboard_Model/app.py:87-88 | The example link `https://drive.google.com/d` goes to Drive. |
| `Fetch.OtherLinkIsRefused` | Dashboard_Model/app.py:89-90 | The example link `http://example.com/x.mp4`, which names a video file but no supported host, is refused. |
| `Metadata.AsClassNames` | Dashboard_Model/app.py:158 | A label list indexes classes 0..n-1 by position, an index-keyed map is used as is, and any other value cannot be indexed. |
| `Metadata.LookupNames` | Dashboard_Model/app.py:124-129 | The labels come from a top-level `names` when present, else from `dataset_config_content.names`. With neither, the error is MissingNames, and only then. |
| `Metadata.TopLevelWins` | Dashboard_Model/app.py:124-127 | Once the top level has `names`, what sits under `dataset_config_content` makes no difference. |
| `Metadata.ListedLabels` | Dashboard_Model/app.py:125 | A top-level label list of n entries gives labels for exactly 0..n-1. |
| `Pipeline.Guard` | Dashboard_Model/app.py:110-140 | The guards, checked in order: a missing URL or model path, missing model files, an unsupported URL host, a failed download, metadata without usable labels, zero frames. Each error is the result exactly when its guard fails and every earlier one passed, and the result is None exactly when all pass. |
| `Pipeline.ProcessVideo` | Dashboard_Model/app.py:99-199 | A failing guard is the result. Otherwise the call succeeds exactly when every class index read is known and fps > 0. With 0 fps the loop's error is UnknownClass exactly when the first detection read has an unknown class index. On success the tally is the class-by-class reference over the frames read, and the summary is built from it. |
| `Accounts.Replaced` | Dashboard_Model/app.py:326-336 | After the pop and the store under the final name, the keys are the old ones minus `selected` plus the final name, and every other entry is unchanged. |
| `Accounts.RemoveUserAdminCount` | Dashboard_Model/app.py:346-351 | Deleting a user lowers the admin count by one exactly when that user is an admin. |
| `Accounts.DeleteKeepsAnAdmin` | Dashboard_Model/app.py:346-351 | A delete that passes the last-admin guard leaves at least one admin. |
| `Accounts.UpdateCanDemoteLastAdmin` | Dashboard_Model/app.py:333-336 | The update has no such guard: giving the only admin another role leaves no admin. |
| `Accounts.UserStore.constructor` | Dashboard_Model/app.py:41-45 | The default store holds only `admin`, with the hash of `admin123` and the admin role: one admin. |
| `Accounts.UserStore.Login` | Dashboard_Model/app.py:265-279 | With matching credentials the session logs in under that name with the stored role. Otherwise the session state comes back unchanged. |
| `Accounts.UserStore.AddNewUser` | Dashboard_Model/app.py:310-319 | A non-admin caller is denied, an empty field rejected and an existing name refused, each exactly then, with the store unchanged. Otherwise exactly that entry is added with the hashed password, and that user can then log in. |
| `Accounts.UserStore.UpdateUserDetails` | Dashboard_Model/app.py:321-339 | Denied, no selection, unknown user and taken name are classified exactly, with the store unchanged. On success the entry moves to its final name, keeps its password unless a new one is given, takes the new role, and leaves every other entry as it was. The new password then logs in, and a renamed user's old name is gone. |
| `Accounts.UserStore.DeleteUserByName` | Dashboard_Model/app.py:341-353 | Denied, no selection, unknown user and last admin are classified exactly, with the store unchanged. Otherwise exactly that entry is removed. At least one admin remains if there was one. |

## Left out

- The Gradio interface: layout, event wiring, `gr.update` visibility changes, status message texts and progress fractions (`Dashboard_Model/app.py:152`, `:205-368`).
- YOLO inference, torch device selection and cv2 decoding and encoding (`:131-167`). The detector's class indices per frame, the frame count and the frame rate are inputs. Drawing the annotated video is not modelled.
- The downloads themselves (pytube stream choice, gdown). `ProcessVideo` takes whether the download produced a file as an input, and which files exist as a set.
- File-system effects: `cleanup_temp_files`, removing the input video, and the JSON files behind `load_users`, `save_users`, `load_config` and `save_config`. The user store is a field that an operation writes back where the source calls `save_users`.
- The statistics chart (`:171-179`): only whether one is drawn is modelled. The key-moments markdown (`:182`) is not modelled: it sorts classes by moment count and lists at most 15 timestamps per class.
- The summary markdown (`:191-194`): its text and the `.2f` rounding of the compliance are not modelled. `Summary` holds the figures it shows, with the compliance as an exact rational.
- The error message `process_video` prints to the console (`:201`) is output only and is not modelled.
- `save_new_model` (`:292-308`): the admin check, the refusal of a missing upload and the file moves into place are not modelled, since they only replace the two paths `ProcessVideo` takes as its configuration.
- `logout_user` and `refresh_user_list` (`:281-291`, `:355-356`): a reset of the session and the UI, and a listing of the store's names, with no checks and no decisions.
- YAML parsing and `posix_path_constructor`. A document that is not a mapping, or a `names` value that is neither a label list nor an index-keyed map, is an error in the model. Python would instead use `in` and indexing on such values.
- `hash_password` is an abstract function of the store. SHA-256 and its collision resistance are not modelled.
- Floating point: times are exact rationals. Python's float division can differ only when two detections are exactly 2 s apart. Key moments are kept as ticks, and `Seconds` converts a tick to the source's seconds.
- A 0 fps is an error result, not a precondition. The loop fails at the first detection, and otherwise the duration division fails. A missing user in an update or delete (a `KeyError` the source does not catch) is the status MissingUser, with the store unchanged. A role left unchosen in an update is stored as `Unassigned`.
- Python dictionaries keep insertion order, which the model's maps do not. This affects only the order of the user list, of the chart, and of classes with equal moment counts in the key-moments markdown (a stable sort keeps them in first-detection order).
- Concurrency: each store operation is atomic in the model. In the source, every admin handler loads `users.json`, changes its copy and saves the whole file with no locking (`:314`/`:318`, `:325`/`:337`, `:345`/`:352`). Two sessions can interleave and lose an update, so the "store unchanged" and "exactly that entry" contracts hold per operation only.
