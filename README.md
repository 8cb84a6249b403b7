# Face-recognition attendance system: a Dafny model

The system has four tkinter screens. They share two pieces of durable state: the `dataset`
folder of enrolment photographs and the `attendance.csv` ledger.

- **Attendance screen** (`ams.py`). At start-up it builds a gallery. The gallery maps each
  photograph's file stem to its face embedding. Each camera frame is then matched against the
  gallery with a nearest-identity search (threshold 0.9, strict `<`, first nearest entry wins).
  The frame's outcome updates the session's `current_name`. "Time In" / "Time Out" append a
  line `[name, "%Y-%m-%d %H:%M:%S", type]` to the ledger.
- **Administrator's screen** (`admin.py`).
  - A static login ("admin" / "123").
  - A table loaded from the ledger.
  - An inclusive date filter (midnight of the start date to 23:59:59 of the end date).
  - Three exports of the current view (`displayed_df`). It can differ from the table after a
    failed load, which clears the table but keeps the old view. No export writes anything when
    the view is empty.
- **Registration screen** (`user.py`). A live preview that freezes when a photograph is taken.
  "Save" checks its inputs in order: photograph, then stripped name, then stripped position.
  It then writes `"<name>, <position>.jpg"` into the folder.
- **User list** (`userlist.py`). Lists the folder's images in sorted file-name order. It
  decodes each file name into a name and a position (split at the first comma, both halves
  stripped). "Delete Selected" removes files one by one, reports each failure and carries on.

Modules:

| module | file | contents |
|---|---|---|
| `Wrappers` | `wrappers.dfy` | `Option` |
| `Text` | `text.dfy` | The Python `str` behaviour used: `strip`, `lower().endswith`, `find`/`rfind`, `os.path.splitext` stems, string `<` |
| `Timestamps` | `timestamps.dfy` | Proleptic Gregorian dates, seconds since 0001-01-01, the `%Y-%m-%d %H:%M:%S` text form and its parser |
| `Storage` | `storage.dfy` | The `dataset` folder (file name to image) and the ledger file (its rows) |
| `Ams` | `ams.dfy` | Attendance screen |
| `Admin` | `admin.dfy` | Administrator's screen |
| `Registration` | `registration.dfy` | Registration screen |
| `UserList` | `userlist.dfy` | User list |

Parameters stand in for the outside world:

- The camera, face detector and embedding network are parameters. A frame is "was it read",
  "were face boxes found" and "the aligned face's embedding, if any". The photograph-to-embedding
  extractor is a function parameter.
- The Euclidean distance is an abstract function `(Embedding, Embedding) -> real`.
- `datetime.now()` is a `DateTime` parameter.
- The order in which `os.listdir` returns the folder is a parameter of `ProcessDataset`: any
  listing of each file exactly once. The user list sorts, so there the order is chosen
  arbitrarily inside `LoadUsers`, and the result is proved not to depend on it.
- Which files the file system refuses to delete is a parameter of `DeleteSelected`.
- The answer to the confirmation dialog is a parameter of `DeleteSelected`.

The attendance screen's session follows the code: an "Unknown face" or "Face not aligned"
frame leaves `current_name` as it was (`ams.py` lines 159-162 assign nothing). Only a frame
with no face box clears it. So "Time In" after a known face followed by unknown frames still
records the last known person. `RunKeepsLastDecisive` states this for any run of frames.

## Model

| member | source | states |
|---|---|---|
| `Text.TrimLeft` | user.py:167 | `lstrip`: the result is a suffix of the input, every dropped character is whitespace, and the result starts with a non-space |
| `Text.TrimRight` | user.py:167 | `rstrip`: the result is a prefix of the input, every dropped character is whitespace, and the result ends with a non-space |
| `Text.Strip` | user.py:167-168 | `strip()` gives text with no whitespace at either end, no longer than the input and made only of its characters. Text already stripped is returned unchanged. The result is empty exactly when the input is all whitespace |
| `Text.StripIsMiddleSlice` | user.py:167-168 | The result of `strip()` is a contiguous slice of the input with only whitespace before and after it |
| `Text.StripLeadingSpace` | userlist.py:70 | Stripping `" " + s` gives the same as stripping `s` (the space after the comma of a file name disappears) |
| `Text.AsciiLower` | userlist.py:67 | After `lower()` no ASCII capital is left, and the result is a lower-case ASCII letter exactly when the input is an ASCII letter of either case |
| `Text.AsciiLowerSameLetter` | userlist.py:67 | Two characters fold to the same character exactly when they are equal or are the same ASCII letter in its two cases |
| `Text.IndexOf` | userlist.py:68 | `split(',', 1)` splits at the first comma: no result exactly when the character is absent, otherwise its first position |
| `Text.LastIndexOf` | ams.py:34 | The last position of the extension dot: no result exactly when there is no dot, otherwise a position with no later dot |
| `Text.Stem` | ams.py:34 | `os.path.splitext(f)[0]` is a prefix of `f`. When shorter, it ends just before the last dot, and something before that dot is not a dot. When equal, there is no dot, or only dots precede the last one |
| `Text.StemKeepsBeforeDot` | userlist.py:68 | Every character before some dot of `f` survives in `Stem(f)` |
| `Text.StemOfDotted` | ams.py:34 | `Stem(base + "." + ext)` is `base` when `ext` has no dot and `base` is not all dots |
| `Text.LessIrreflexive` | userlist.py:66 | Python's string `<` never holds between a string and itself |
| `Text.LessTotal` | userlist.py:66 | Two strings differ exactly when one is `<` the other, and never both ways |
| `Text.LessTransitive` | userlist.py:66 | String `<` is transitive |
| `Timestamps.SecondsOf` | admin.py:136 | A timestamp's seconds fall within its day: from midnight up to, but not including, the next midnight |
| `Timestamps.DaysBeforeNextYear` | admin.py:136 | The day count advances by the year's length (366 in Gregorian leap years) |
| `Timestamps.DaysBeforeYearGrows` | admin.py:136 | Later years start at least 365 days per year later |
| `Timestamps.DaysBeforeMonthGrows` | admin.py:136 | Later months of a year start later |
| `Timestamps.DayOfYearBound` | admin.py:136 | A valid date's day number lies inside its year |
| `Timestamps.DayNumberOrder` | admin.py:136 | Comparing day numbers is comparing calendar dates, in both directions, and equal day numbers mean equal dates |
| `Timestamps.DayNumberBefore` | admin.py:136 | An earlier date has a smaller day number |
| `Timestamps.InDateRangeIffBetween` | admin.py:130-136 | `start <= Timestamp <= end + 1 day - 1 second` holds exactly when the timestamp's date lies between the two dates, both included |
| `Timestamps.Digits` | ams.py:50 | A zero-padded field has exactly the requested width, all decimal digits |
| `Timestamps.DigitsValueOfDigits` | ams.py:50 | Reading a zero-padded field gives back the number written |
| `Timestamps.DigitsOfDigitsValue` | admin.py:125 | Rewriting the value of a digit string in its width gives back the string |
| `Timestamps.FormatStamp` | ams.py:50 | `strftime("%Y-%m-%d %H:%M:%S")` is 19 characters |
| `Timestamps.DateText` | ams.py:50 | The `%Y-%m-%d` half is 10 characters |
| `Timestamps.TimeText` | ams.py:50 | The `%H:%M:%S` half is 8 characters |
| `Timestamps.ParseFormatDate` | ams.py:50 | A written date reads back as the same date |
| `Timestamps.ParseFormatTime` | ams.py:50 | A written time of day reads back as the same hour, minute and second |
| `Timestamps.FormatParseDate` | admin.py:125 | A date text that reads back as a real date is written again exactly as it was |
| `Timestamps.FormatParseTime` | admin.py:125 | A time text that reads back within range is written again exactly as it was |
| `Timestamps.ParseStamp` | admin.py:122 | Any moment read from a stamp is a real date and time |
| `Timestamps.ParseFormatStamp` | ams.py:50 | A stamp written by the attendance screen reads back as the same moment |
| `Timestamps.FormatParseStamp` | admin.py:125 | A stamp that reads back at all is displayed exactly as it was written |
| `Storage.LedgerFile.Append` | ams.py:51-52 | Appending creates a missing file and adds exactly one line at the end, with earlier lines unchanged |
| `Ams.Put` | ams.py:34 | `d[k] = v`: the keys stay distinct and become the old keys plus `k`. An existing key keeps its position with the new value. A new key goes last. No other entry changes |
| `Ams.IsGalleryImage` | ams.py:29 | The enrolment test: the lower-cased name ends in `.png`, `jpg` or `jpeg`, the last two without a dot |
| `Ams.GalleryOf` | ams.py:26-35 | The dictionary built after any prefix of the listing has distinct keys |
| `Ams.GalleryKeys` | ams.py:28-34 | The gallery's keys are exactly the stems of the files that are images by suffix and yield a face. No other file contributes a key |
| `Ams.GalleryKeysStep` | ams.py:28-34 | One more file adds its stem to the keys when it is an image with a face, and adds nothing otherwise |
| `Ams.GalleryEntryFromLastFile` | ams.py:28-34 | Each entry holds the embedding of a file that enrols under that key with no later enrolling file of the same stem: the last one in listing order wins (a later `a.jpg` overwrites an earlier `a.png`) |
| `Ams.LastEnrolledExtends` | ams.py:28-34 | A file that does not enrol under a key leaves the last enrolment for that key where it was |
| `Ams.GalleryEntryStep` | ams.py:34 | After one more file, an entry under that file's stem holds its embedding when it enrols. Every other entry is the one from before, at the same position |
| `Ams.ProcessDataset` | ams.py:26-35 | The loop over the folder listing builds exactly `GalleryOf(listing)` |
| `Ams.Scan` | ams.py:41-45 | The loop of `recognize_face` before the threshold: the entry that last lowered the distance by strict `<`, and that distance, or no name at infinite distance on an empty gallery |
| `Ams.MatchFace` | ams.py:40-46 | `recognize_face`: the scan's name when its distance is below the threshold, otherwise no name. The distance is returned either way |
| `Ams.ScanFindsFirstNearest` | ams.py:41-45 | On a non-empty gallery the scan ends on the first entry at the minimum distance and reports that minimum |
| `Ams.LastBecomesNearest` | ams.py:43-45 | An entry strictly closer than the first nearest so far becomes the first nearest |
| `Ams.NearestStaysNearest` | ams.py:43-45 | An entry that is not strictly closer leaves the first nearest unchanged, so ties go to the earlier entry |
| `Ams.MatchFaceSpec` | ams.py:40-46 | An empty gallery gives no name and infinite distance. Otherwise the distance is the gallery minimum, whether or not the match is accepted, and a name is returned exactly when that minimum is `< threshold`. The name is that of the first entry at the minimum |
| `Ams.MatchedNameIsKey` | ams.py:42-46 | A returned name is a gallery key |
| `Ams.ExactProbeAccepted` | ams.py:40-46 | A probe equal to an enrolled embedding is accepted at distance 0 when the metric is zero on equal arguments and never negative |
| `Ams.FarProbeUnknown` | ams.py:40-46 | A probe at least `threshold` from every entry gets no name |
| `Ams.Classify` | ams.py:147-165 | A frame's outcome: no face box, no aligned face, a known face with its matched name, or an unknown face |
| `Ams.NextName` | ams.py:149-165 | `current_name` after a frame: cleared by no face box, set by a known face, and kept otherwise |
| `Ams.RecognizeFace` | ams.py:40-46 | The loop with `best`, `dist` and strict `<` returns exactly `MatchFace` |
| `Ams.RunKeepsLastDecisive` | ams.py:149-165 | After a run of frames, `current_name` is what the last "no face" frame (None) or known-face frame (its name) made it, or the starting value when every frame was unknown or not aligned |
| `Ams.MarkAttendance` | ams.py:49-52 | One line `[name, now as "%Y-%m-%d %H:%M:%S", typ]` is appended at the end of the ledger |
| `Ams.FaceAttendanceApp.constructor` | ams.py:37 | The gallery is `process_dataset` of the folder. The session starts with no current name |
| `Ams.FaceAttendanceApp.UpdateVideo` | ams.py:137-165 | An unread frame changes nothing. Otherwise: no face box clears `current_name`; a known face sets it to the matched key; an unknown or unaligned face leaves it as it was. The label shows the outcome, and `current_name` stays empty or a gallery key |
| `Ams.FaceAttendanceApp.Record` | ams.py:172-176 | With an empty `current_name` nothing is written. Otherwise exactly one line for that gallery key, the current time and "Time In"/"Time Out" goes at the end of the ledger |
| `Ams.FaceAttendanceApp.ResetDetection` | ams.py:178-180 | "Again" clears `current_name` and shows "No face detected" |
| `Admin.ValidCredentials` | admin.py:64 | The login test: the e-mail is "admin" and the password is "123" |
| `Admin.ParseRows` | admin.py:122 | `to_datetime` succeeds exactly when every row's stamp parses. It then yields one record per row, in file order |
| `Admin.ConvertAll` | admin.py:122 | A column conversion that raises on a bad value succeeds exactly when every value converts. It then gives one converted value per input, in order |
| `Admin.ConvertOneMore` | admin.py:122 | Converting one more value that converts appends its converted value to the earlier results |
| `Admin.ReadLedger` | admin.py:118-122 | A missing file is `Missing`. A file with an unreadable stamp makes pandas raise (`Unreadable`). Otherwise the parsed rows, and an existing empty file gives no rows |
| `Admin.DisplayRows` | admin.py:124-126 | The table shows one row per record, in order, with the stamp re-formatted |
| `Admin.DisplayRowsExtend` | admin.py:124-126 | Displaying one more record adds exactly its display row at the end |
| `Admin.LoadedShowsFileRows` | admin.py:121-126 | A readable file is displayed exactly as its lines were written |
| `Admin.AppendReadsBack` | ams.py:49-52 | A line appended by the attendance screen reads back on the administrator's screen as one more record at the end, with the same name, moment and type |
| `Admin.InView` | admin.py:130-136 | The mask: the timestamp lies from midnight of the start date to 23:59:59 of the end date, both included |
| `Admin.FilterByDate` | admin.py:136-137 | The filtered view holds only real timestamps |
| `Admin.FilterKeepsInRangeInOrder` | admin.py:136-137 | `df.loc[mask]` is the order-preserving subsequence at exactly the positions whose timestamp passes the mask |
| `Admin.FilterMembership` | admin.py:136-137 | A record is in the view exactly when it is in the file and passes the mask |
| `Admin.FilterBoundaries` | admin.py:130-136 | 00:00:00 on the start date and 23:59:59 on the end date are kept. 00:00:00 on the day after the end is not |
| `Admin.FilterEmptyWhenReversed` | admin.py:130-137 | A start date after the end date gives an empty view |
| `Admin.FilterOneDayExample` | admin.py:130-137 | On one day, 00:00:00 and 23:59:59 are kept and the next midnight is dropped |
| `Admin.LoadedView` | admin.py:114-123 | The view after a load: empty for a missing file, unchanged when pandas raises, otherwise the parsed records |
| `Admin.AdminApp.constructor` | admin.py:31-34 | The login form is shown, the view and the table are empty, and nothing has been exported |
| `Admin.AdminApp.Login` | admin.py:63-67 | Only "admin"/"123" opens the panel, which then loads the table. Any other pair leaves everything unchanged |
| `Admin.AdminApp.FillTree` | admin.py:124-126 | The insert loop adds the display rows of the records, in order, after what the tree held |
| `Admin.AdminApp.LoadAttendance` | admin.py:114-126 | The tree is cleared first. A missing file empties the view. An unreadable file leaves the view as it was. A readable file shows all its records in file order |
| `Admin.AdminApp.ApplyDateFilter` | admin.py:128-143 | With a readable file, the view and the tree become the date-filtered records. A missing or unreadable file changes nothing |
| `Admin.AdminApp.ExportView` | admin.py:147-149 | An export is written exactly when the view is non-empty, and it holds the view |
| `Admin.AdminApp.ExportCsv` | admin.py:145-153 | The CSV export writes the current view, or nothing when it is empty |
| `Admin.AdminApp.ExportExcel` | admin.py:155-163 | The Excel export writes the current view, or nothing when it is empty |
| `Admin.AdminApp.ExportPdf` | admin.py:165-185 | The PDF export writes the current view, or nothing when it is empty |
| `Registration.FileNameFor` | user.py:177 | The file name `"<name>, <position>.jpg"` |
| `Registration.CheckSave` | user.py:163-174 | Checks in order: no photograph, then empty stripped name, then empty stripped position. Saving happens exactly when all three pass, under `"<name>, <position>.jpg"` with both stripped |
| `Registration.SavedFileGalleryKey` | user.py:177 | A saved file is a gallery image, and its stem, which is the attendance screen's key and the name the ledger records, is `"<name>, <position>"` |
| `Registration.JpgIsGalleryImage` | user.py:177 | Any name ending in `.jpg` passes the attendance screen's image test |
| `Registration.UserRegistration.constructor` | user.py:132-133 | No frame and no photograph at start |
| `Registration.UserRegistration.UpdateVideo` | user.py:137-141 | The preview takes a frame that was read only while no photograph is held |
| `Registration.UserRegistration.Capture` | user.py:149-158 | "Take" holds the current frame when there is one, and otherwise changes nothing |
| `Registration.UserRegistration.Retake` | user.py:160-161 | "Retake" drops the held photograph |
| `Registration.UserRegistration.EnterDetails` | user.py:167-168 | The texts `save` reads are the texts typed |
| `Registration.UserRegistration.Save` | user.py:163-183 | The outcome is `CheckSave`. A refused save changes nothing. A successful one writes the photograph under that file name, replacing any file of that name, and clears the photograph and both entries. The preview frame is kept |
| `UserList.IsListedImage` | userlist.py:67 | The list's test: the lower-cased name ends in `.png`, `.jpg` or `.jpeg` |
| `UserList.ListedIsGalleryImage` | userlist.py:67 | Every file the list shows is one the attendance screen enrols |
| `UserList.UndottedSuffixNotListed` | ams.py:29 | The converse fails: `photojpg` is enrolled but never listed |
| `UserList.FoldedSuffixShape` | userlist.py:67 | A name whose lower-cased end is a dot plus letters has that dot and no dot or comma after it |
| `UserList.ListedSuffixDot` | userlist.py:67 | A listed file has a suffix dot with no dot and no comma after it |
| `UserList.CommaInStem` | userlist.py:68 | A comma in a listed file name lies in its stem, so `split(',', 1)` always gives two parts |
| `UserList.DecodeFileName` | userlist.py:68-70 | Both parts are stripped. Without a comma: the whole stripped file name, suffix included, and an empty position. With one: the name holds no comma |
| `UserList.DecodeAtFirstComma` | userlist.py:68-70 | With a comma, the name is the stripped stem before its first comma and the position the stripped rest of the stem, later commas included |
| `UserList.DecodeOfStem` | userlist.py:68-70 | A stem `first + "," + rest` with a comma-free `first` decodes to the stripped `first` and `rest` |
| `UserList.DottedJpgListed` | userlist.py:67 | A name ending in `.jpg` is listed |
| `UserList.SavedFileListsAsEntered` | userlist.py:68-70 | Decoding the file `save` writes for a stripped, non-empty, comma-free name and a stripped position gives back that name and position |
| `UserList.SaveThenListRoundTrip` | user.py:163-183 | What a successful "Save" wrote is listed under exactly the stripped texts typed, when the name has no comma |
| `UserList.FileNameInjective` | user.py:177 | With comma-free names, different registrations write different files |
| `UserList.CommaInNameCollides` | user.py:177 | With a comma in the name, `("A, B", "C")` and `("A", "B, C")` write the same file, which is listed as the latter |
| `UserList.RowFor` | userlist.py:68-72 | A row is keyed by its file name. It shows a stripped, comma-free name and a stripped position, and the position is empty when the file name has no comma |
| `UserList.Insert` | userlist.py:66 | Insertion keeps every element and adds one |
| `UserList.Sort` | userlist.py:66 | `sorted` is a permutation |
| `UserList.InsertSorted` | userlist.py:66 | Inserting a new name into an ascending list keeps it ascending |
| `UserList.SortSorted` | userlist.py:66 | `sorted` over distinct names is strictly ascending |
| `UserList.StrictlySortedUnique` | userlist.py:66 | Only one strictly ascending list holds a given set of names, so the listing order does not matter |
| `UserList.ListRows` | userlist.py:66-72 | The rows inserted for a listing: one row per listed image, in listing order |
| `UserList.ListRowsSpec` | userlist.py:66-72 | The rows of a sorted listing are its listed images, ascending, one row each and decoded |
| `UserList.ListRowsDecoded` | userlist.py:67-72 | Every row comes from a listed image of the listing and shows that file's decoded name and position |
| `UserList.ListRowsComplete` | userlist.py:67-72 | Every listed image of the listing has a row |
| `UserList.ListRowsSorted` | userlist.py:66-72 | The rows of a strictly ascending listing are strictly ascending by file name |
| `UserList.IidsOfListRows` | userlist.py:66-72 | The rows' file names are the listing's images, in listing order |
| `UserList.ListedNames` | userlist.py:67 | The names kept are exactly the listing's images |
| `UserList.ListedNamesSorted` | userlist.py:66-67 | Keeping only the images of a strictly ascending listing keeps it strictly ascending |
| `UserList.ListsFolderUnique` | userlist.py:59-72 | What the tree shows after loading is determined by the folder alone |
| `UserList.FailedRemovals` | userlist.py:82-87 | Every reported failure was selected. Every selected file that is absent or cannot be removed is reported |
| `UserList.FailureHasCause` | userlist.py:82-87 | A reported file is absent, cannot be removed, or was selected more than once |
| `UserList.FailsAt` | userlist.py:83-87 | `os.remove` fails at a position when the file is not in the folder, cannot be removed, or was already removed at an earlier position |
| `UserList.FailedRemovalsInOrder` | userlist.py:82-87 | The reported failures are the order-preserving subsequence of the selection at exactly the positions whose removal fails |
| `UserList.UserListApp.constructor` | userlist.py:57 | The screen opens listing the folder |
| `UserList.UserListApp.LoadUsers` | userlist.py:59-72 | The tree holds one row per image in the folder, ascending by file name, each decoded, and nothing else |
| `UserList.UserListApp.DeleteSelected` | userlist.py:74-88 | With an empty selection or no confirmation nothing changes. Otherwise every selected file that exists and can be removed is removed, and every other file stays as it was. Failures are reported in selection order and the loop continues. Finally the list shows the new folder |

## Left out

- tkinter layout, colours, the clock label and the `messagebox` texts. The warnings are modelled only as the outcome value of each operation.
- Video rendering, `cv2.resize` and `cv2.cvtColor` are not modelled. So are OpenCV capture and MTCNN / InceptionResnetV1 inference: detection and the embedding are parameters.
- `np.linalg.norm` float arithmetic. The distance is an abstract real-valued function, and NaN is not modelled.
- Screen switching through `subprocess.Popen` and window closing are not modelled: they are process navigation.
- The file system is not modelled. The folder is a map from file name to image and the ledger is a sequence of rows. `os.makedirs` is not modelled, and a `/` in a name is not treated as a path separator.
- `cv2.imwrite` failing silently is not modelled: `Save` always writes.
- `Ams.ProcessDataset` and `Ams.GalleryOf`: a file with an image suffix that cannot be opened as an image makes `Image.open` raise, and the attendance screen never opens. The model's extractor only yields a face or no face, so such a file is skipped instead.
- `Timestamps.ParseStamp` accepts years 1 to 9999. `pd.to_datetime` raises for moments outside about 1677-09-21 to 2262-04-11, so a ledger with such a stamp is `Unreadable` in the source but loads in the model.
- `Ams.FaceAttendanceApp.constructor` captures `embeddings_dict` as module state built once at import time. Later saves do not reach a running attendance screen, and the model keeps that: the gallery is a constant.
- CSV quoting and escaping are not modelled. Rows are kept as fields.
- pandas `read_csv` column inference and rows with a different number of fields are not modelled.
- pandas `to_datetime` is lenient: it accepts many text forms and mixed formats. The model reads only the `%Y-%m-%d %H:%M:%S` form the attendance screen writes, and anything else makes the file `Unreadable`.
- `Timestamps.FormatStamp`: years are always written as four digits. Python pads `%Y` the same way on most platforms, but not everywhere for years below 1000.
- The export paths (the home Desktop, the clock in the file name) are not modelled. The content formatting of CSV, Excel and PDF is not modelled either: an export is recorded as its format and the records it holds.
- `Text.AsciiLower`: `lower()` is modelled on ASCII only. That is exact for the suffix tests, but it is not a general Unicode case mapping.
- `Admin.AdminApp.Login` requires that the panel is not yet shown: the login form, and with it the button, no longer exists once the panel replaces it.
- The order of gallery entries is the dictionary's insertion order under the given listing. `os.listdir` promises no order, so which of `a.png` and `a.jpg` wins is left to the listing parameter.
- The user-list tree selection is a parameter of `DeleteSelected`. The model does not require it to come from the current rows. A name selected twice fails the second time, as `os.remove` would.
