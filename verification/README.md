# A verified model of the PBS exporter

The exporter reads the job files of a PBS server, keeps the live jobs in a cache that file
events update and time empties, and publishes metrics about jobs, nodes and control groups.
This project models the parts of it that decide what is published, and proves what they
guarantee.

* **The job file codec** (`JobFile`, `Layout`, `Encode`, `Decode`, `Records`, `Values`,
  `Codec`, `RoundTrip`, `Sizes`, `Acceptance`, `FileBytes`, `JobTypes`, `JobFields`). Encoder and decoder are classes that work
  as the program's do: a scratch buffer that is resliced, refilled and sometimes replaced, an
  attribute object that is overwritten, a job object assigned field by field through a key
  table built by recursion over the job's type. Each is proved against a function on bytes,
  and the theorems are about those functions: round trips in both directions with the exact
  domain, the exact language of files that are accepted, what becomes of a file cut short, and what
  a file and each of its attributes are byte by byte.
* **The job cache and its watcher** (`Cache`, `CacheHistory`, `Lifetimes`, `Events`, `Jobs`). The cache is a
  class with entry objects updated in place; its methods take the clock reading the program
  takes. Histories of timed actions, with readings in any order, say what every run keeps; a
  machine in which goroutines read the clock and act in two separate steps is proved to reach
  only such histories. The watcher composes codec and cache from file bytes to answers.
* **Small grammars** (`ExecVnodes`, `ExecVnodesPrinted`, `Select`, `SelectPrinted`, `ListFormat`,
  `Utils`), each with its loops proved against a function and a printer whose output it reads as intended.
* **Aggregates** (`PbsNode`, `BlockIo`, `Collector`, `Collected`): node states as bits, block I/O by
  device, and one collection of job metrics without duplicate series.

`Reflect` stands for Go's reflection: a tree of types with tags, values typed by it, and
index paths. `GoStrings` and `Strconv` model the string and number functions the program
calls. `Fields` holds what the two chunk printers share; `Wrappers`, `Seqs`, `Sums` and `Listings`
are general.

## How the program is represented

* Strings and bytes are sequences of characters. A header byte is a character's code modulo
  256; where a theorem needs real bytes it says `IsBytes`.
* Integers wrap as Go's do: `Wrap32`, `Wrap64` and `WrapU64` stand at each place where the
  program adds or multiplies in a fixed width. `int` has 64 bits.
* Decoding has a total outcome: `Accepted` with the unread rest, `Rejected` with an error,
  `Loops` where the program would repeat one step forever, and `Panicked` where it would slice
  a buffer out of bounds. `Loops` is not a limit of the model but a behaviour of the program:
  at a clean end of data between records decode.go:133-135 reports success, so the loop
  repeats. `Acceptance.IdleStep` and `Acceptance.StuckStep` prove that the step changes
  nothing; `Acceptance.LoopsExactly` and `Acceptance.PanicsExactly` say on which files the two
  happen. The watcher's model stops on both.
* A clock reading is a parameter of the action that takes it. Maps are visited in an
  arbitrary order, by removing arbitrary keys from a set.
* `units.RAMInBytes` (`ram`), `strings.ToLower` (`lower`) and the user database (`uidOf`) are
  parameters of which nothing is assumed.
* Nil and empty lists are one value.

## Where the code does less than one might expect

* A file that ends between records makes decoding spin, as said above
  (`Acceptance.LoopsExactly`, `Acceptance.PrefixLoops`, `Acceptance.CutFile`).
* A negative size in a record's header makes decoding panic (`Acceptance.PanicsExactly`,
  `Acceptance.NegativeNamePanics`).
* A job does not survive its file when a string has NUL at an end, a list element holds the
  separator, or a list is the single empty text (`RoundTrip.RoundTripsExactly`,
  `Jobs.SingleEmptyTextIsLost`). The length in a record's header may wrap around; the reader
  takes differences only and is not misled.
* A clean-up can show to a `Get` or `List` that read the clock before it; `CacheHistory.GetExactly`
  says exactly when, `Collector.StaleRunIsReachable` that it happens.
  To `IsRunning` it never shows.
* `NodeState` is a bit field exactly when no known state is repeated (`PbsNode.TotalIsMask`,
  `PbsNode.RepetitionMisleads`).
* `ParseSelect` need not be additive when the second statement starts with chunks that have no
  count of their own (`Select.SelectAdditiveExactly`, `SelectPrinted.AdditivityFails`).
* A non-empty wall time of fewer than three parts makes `ParseWalltime` panic
  (`Utils.WalltimePanicsExactly`); the watcher and start-up stop there.
* A list range that ends at the largest int never ends (`ListFormat.LoopEndsExactly`).

`dafny verify dfyconfig.toml` checks the project.

## Model

| member | source | states |
|---|---|---|
| JobFile.JobMapBuilder.Build | internal/pbsjob/job_file.go:81-127 | the recursive walk panics exactly when a leaf is deeper than two layers; otherwise it lists the keys of the type's leaves depth first and stores exactly them in the shared map, later ones replacing earlier ones |
| JobFile.NewJobMapCache | internal/pbsjob/job_file.go:56-61 | the table and order the program starts with, or its panic |
| JobFile.KeyTable | internal/pbsjob/job_file.go:56-127 | for any type of at most two layers with distinct sibling names: the map's domain is the listed order, no key is listed twice, the order is depth first, every index path ends at a leaf, and no path is a prefix of another |
| JobFile.LeafIsKeyed | internal/pbsjob/job_file.go:81-127 | every leaf of the type has a key: the names of the fields on the way to it, with that way and the separator of its field |
| JobFile.KeyIsLeaf | internal/pbsjob/job_file.go:81-127 | conversely, every key leads to a leaf of the type and consists of the names on the way to it |
| JobFile.LeavesOrdered | internal/pbsjob/job_file.go:90-127 | of two leaves listed one after the other, the first turns off earlier in the type, and their names part where their indices part |
| JobFile.SameLeavesSameValue | internal/pbsjob/job_file.go:81-127 | the listed leaves determine a value of the type: no field is out of the codec's reach |
| JobTypes.JobTypeIsGood | internal/pbsjob/pbsjob.go:37-99 | `Job` with all its tags is a type the theorems speak of: two layers, distinct names without NUL, scalar or string-list fields |
| JobFields.JobAttributes | internal/pbsjob/pbsjob.go:37-99 | the attributes of `Job` are fifty-two: each with its name and resource, its place in the struct, its separator and its kind, in the order of the file |
| JobFields.TextRead | internal/pbsjob/decode.go:93-94 | a file of one record for a text attribute is accepted and changes that attribute alone, to the record's text |
| JobFields.NumberRead | internal/pbsjob/decode.go:71-80 | likewise a number attribute becomes the decimal value of its digits, zeros in front or not, 0 where there is no text, and otherwise what the unit parser says |
| JobFields.ListRead | internal/pbsjob/decode.go:96-107 | likewise a list attribute becomes the parts that its text joins |
| JobTypes.JobRoundTrips | internal/pbsjob/pbsjob.go:58-99 | a `Job` comes back from its own file, in either mode and whatever job it is decoded into, if and only if the format carries all its fields |
| JobTypes.JobFileLength | internal/pbsjob/job_file.go:44-49 | a job's file is 1096 + (104 + three text lengths for each attribute) + 24 bytes long, when each text is short enough for its 32-bit size |
| JobTypes.JobFileStart | internal/pbsjob/job_file.go:129-136 | in the file of every job, whatever its size, "Job_Name" first occurs at byte 1120 |
| Reflect.SetKeepsOthers | internal/pbsjob/decode.go:119-123 | assigning the field at one index path leaves the field at any path that parts from it unchanged |
| Layout.ReadHeaderBytes | internal/pbsjob/job_file.go:29-36 | a header written little-endian reads back, for every six 32-bit numbers, negative ones too |
| Layout.HeaderBytesOfRead | internal/pbsjob/decode.go:132-137 | conversely, the 24 bytes a header was read from are the ones it is written as |
| Layout.HeaderNumbers | internal/pbsjob/decode.go:132-137 | the six numbers of a header are b0 + 2^8 b1 + 2^16 b2 + 2^24 b3, in 32 signed bits, of its bytes at 0, 4, 8, 12, 16 and 20 |
| Layout.HeaderWritten | internal/pbsjob/encode.go:72-84 | the header written is of bytes with these values |
| Strconv.ParseFormatInt | internal/pbsjob/encode.go:40-41 | a printed integer parses back as it, for all 64-bit integers |
| Strconv.ParseFormatUint | internal/pbsjob/encode.go:43-44 | the same for unsigned integers |
| Strconv.ParseUintDigits | internal/pbsjob/decode.go:87-91 | any digits are read as their decimal value, zeros in front or not, or out of range beyond 2^64 - 1 |
| Strconv.ParseUintOther | internal/pbsjob/decode.go:87-90 | any other text is refused, unless its first digits are out of range before the first other character |
| Strconv.ParseIntDigits | internal/utils/utils.go:57-60 | digits with or without a sign are read as the signed decimal value, clamped to 64 bits where out of range |
| Strconv.ParseIntOther | internal/utils/utils.go:57-60 | any other text is refused, unless its first digits are out of range |
| Encode.Encoder.EncodeAttributeValue | internal/pbsjob/encode.go:33-62 | the text of a value; list elements are encoded one by one into a slice and joined |
| Encode.Encoder.EncodeAttribute | internal/pbsjob/encode.go:64-112 | sets the attribute's value and appends exactly one record to the writer; the scratch buffer is empty again afterwards |
| Encode.Encoder.Encode | internal/pbsjob/encode.go:114-143 | appends to the writer exactly the prefix, one record for each key in table order, and the end marker |
| Encode.Marshal | internal/pbsjob/encode.go:145-153 | the bytes of the whole file |
| FileBytes.FileWritten | internal/pbsjob/encode.go:72-143 | the file is 1096 NULs, one record for each attribute in order, the bytes 39 FD FF FF and twenty NULs; a record's header holds the sizes of the record and of its texts, then zeros; a text that is not empty ends in one NUL, a value in two, and 80 NULs follow |
| Encode.MarshalLength | internal/pbsjob/encode.go:72-143 | the length of a file for any attributes whose texts fit their 32-bit sizes |
| Encode.SentinelPosition | internal/pbsjob/job_file.go:129-136 | for any file whose first attribute is "Job_Name", the sentinel occurs at 1120 and nowhere before, neither in the prefix nor in the first header |
| Decode.Decoder.ParseAttributeValue | internal/pbsjob/decode.go:51-114 | the parsed value or the failure for each kind, by recursion into list elements; one bad element fails the list |
| Decode.Decoder.DecodeAttributeValue | internal/pbsjob/decode.go:116-129 | assigns exactly the field the key names, or fails leaving the job alone; unknown keys fail in strict mode only |
| Decode.Decoder.ReadText | internal/pbsjob/decode.go:150-167 | reslicing and filling the reused buffer yields the same text as a fresh buffer would, within its capacity, and panics exactly on negative sizes |
| Decode.Decoder.DecodeAttributeHeader | internal/pbsjob/decode.go:131-175 | through one reused and sometimes replaced buffer, the attribute is set exactly as a reader with fresh buffers would set it |
| Decode.Decoder.DecodeAttribute | internal/pbsjob/decode.go:177-187 | one pass of the record loop on job, attribute and stream, for each of the five kinds of record |
| Decode.Decoder.Decode | internal/pbsjob/decode.go:189-207 | the loop ends as its recursive specification says, with bytes left as its measure; the one step without progress is answered by `Loops` |
| Decode.Unmarshal | internal/pbsjob/decode.go:209-218 | decoding all the bytes of a file into a job |
| FileBytes.FileDecodes | internal/pbsjob/decode.go:131-207 | 1096 bytes, records whose header numbers are their sizes, the bytes 39 FD FF FF, any twenty bytes and any rest: decoding assigns the records' attributes in order and stops at that rest, or is rejected by the first that cannot be assigned; NULs around texts and the last byte of a value do not count |
| FileBytes.CutInside | internal/pbsjob/decode.go:131-194 | a file of fewer than 1096 bytes, or one cut inside a record, is rejected |
| Records.StepConsumes | internal/pbsjob/decode.go:131-175 | a successful record step has non-negative sizes and consumes at least 24 bytes, exactly `Length` of them in data below 2 GiB, and `Length` modulo 2^32 in any data |
| Records.ReadRaw | internal/pbsjob/decode.go:131-175 | reading a well-formed record in front of anything consumes exactly it and yields its attribute |
| Records.ReadIsRaw | internal/pbsjob/decode.go:131-175 | conversely, whatever bytes a successful step consumed were a well-formed record, at any size |
| Records.CutRecord | internal/pbsjob/decode.go:131-175 | a record cut anywhere inside is an error, never an end of file and never a panic |
| Records.EncodedRecord | internal/pbsjob/encode.go:64-112 | the encoder's record is well formed and stands for its attribute with the value's outer NULs trimmed |
| Codec.DecodeFileIsFold | internal/pbsjob/decode.go:177-207 | on any prefix, well-formed records and end marker, decoding is the left fold of field assignments, rejected where the fold fails |
| Codec.OnlyTextsMatter | internal/pbsjob/decode.go:144-172 | prefix, flags, reference counts, padding and its length, outer NULs and the last byte of each value do not change the result |
| Codec.FoldSucceeds | internal/pbsjob/decode.go:116-129 | the fold succeeds exactly when each attribute's key is known or ignored and its text parses |
| Codec.FoldFields | internal/pbsjob/decode.go:116-129 | after a successful fold each field holds what the last record of its key says, and its old value without one |
| Codec.UnknownIgnored | internal/pbsjob/decode.go:124-126 | without strict mode, attributes of unknown keys can be inserted or dropped anywhere |
| Codec.LastTextsDecide | internal/pbsjob/decode.go:177-207 | two attribute lists with the same last text for each known key give the same job |
| Codec.PermutedRecords | internal/pbsjob/decode.go:177-207 | attributes with distinct keys can be permuted without changing the fold |
| Codec.UnknownInFile | internal/pbsjob/decode.go:124-126 | without strict mode, a record of an unknown key can be put anywhere into a file, or dropped from it, without changing the result |
| Codec.LastTextsInFile | internal/pbsjob/decode.go:177-207 | two accepted files with the same last text for each known key decode to the same job |
| Codec.PermutedFile | internal/pbsjob/decode.go:177-207 | permuting the records of a file, where their keys are distinct, gives the same result, or both are rejected |
| Values.ParseText | internal/pbsjob/decode.go:51-114 | parsing the text of any faithful value of any kind gives the value back |
| Values.ListTextStable | internal/pbsjob/decode.go:96-107 | encoding the parse of any text as a list gives the same text |
| Values.CarriedExactly | internal/pbsjob/encode.go:49-57 | a value comes back exactly when no list element holds the separator, the list is not the single empty text, and its text has no outer NUL |
| RoundTrip.RoundTrips | internal/pbsjob/decode.go:51-207 | decoding `Marshal` of a job in the format's domain into any job, strict or not, accepts all the data and gives back the job |
| RoundTrip.RoundTripsExactly | internal/pbsjob/encode.go:33-143 | for the kinds `Job` uses, the job comes back if and only if every field is one the format carries |
| Jobs.SingleEmptyTextIsLost | internal/pbsjob/decode.go:96-107 | a job whose variable list is the single empty text does not come back, in either mode |
| RoundTrip.DecodedInDomain | internal/pbsjob/decode.go:150-207 | whatever the bytes and however decoding ends, what is decoded into an empty job, or into one already decoded, lies in the round-trip domain |
| RoundTrip.DecodeIsNormal | internal/pbsjob/job_file_test.go:226-259 | decode, encode, decode equals decode, for any bytes decoded into an empty or already decoded job, when the decoded job fits a file |
| Sizes.DecodeSmallIsNormal | internal/pbsjob/job_file_test.go:226-259 | for any bytes up to 2^31 - 4096 decoded into an empty job the decoded job does fit a file, so decode, encode, decode equals decode with no condition on the job |
| Acceptance.AcceptsExactly | internal/pbsjob/decode.go:131-207 | decoding accepts a file if and only if it is a 1096-byte prefix, well-formed assignable records, and an end marker followed by the unread rest |
| Acceptance.LoopsExactly | internal/pbsjob/decode.go:131-207 | decoding never ends if and only if the data stops at a record boundary with no end marker read |
| Acceptance.PrefixLoops | internal/pbsjob/decode.go:131-207 | decoding a file that is only the 1096-byte prefix never ends |
| Acceptance.PanicsExactly | internal/pbsjob/decode.go:144-167 | decoding panics if and only if well-formed records that all assign are followed by a header, no end flag, whose first negative size is reached before the data runs out |
| Acceptance.NegativeNamePanics | internal/pbsjob/decode.go:150-154 | a prefix and a single header with name length -1 are such a file |
| Acceptance.IdleStep | internal/pbsjob/decode.go:131-135 | after a record, the step at a clean end of data succeeds and leaves job, attribute and stream as it found them |
| Acceptance.StuckStep | internal/pbsjob/decode.go:197-204 | whatever came before, once a step at a clean end succeeds, every later one changes nothing, so the loop repeats forever |
| Acceptance.AcceptedFileExtends | internal/pbsjob/decode.go:139-142 | data behind the end marker is never looked at |
| Acceptance.NoStrictPrefixAccepted | internal/pbsjob/decode.go:131-207 | no strict prefix of a file accepted whole is accepted |
| Acceptance.CutFile | internal/pbsjob/decode.go:131-207 | a file cut inside the prefix or a record is rejected; cut between records it makes decoding repeat forever, in strict mode only behind a record; it never panics |
| Acceptance.CutMarshalled | internal/pbsjob/encode.go:114-143 | the same for every cut of every marshalled job of scalar and string-list fields, in the round-trip domain or not: no strict prefix is accepted |
| Cache.JobCache.Get | internal/pbsjob/cache.go:88-108 | the job under an id that has not expired at the reading, or nothing |
| Cache.JobCache.IsRunning | internal/pbsjob/cache.go:110-117 | whether the entry runs, expired or not |
| Cache.JobCache.List | internal/pbsjob/cache.go:70-86 | for any order in which the map is visited: each unexpired entry's job exactly once |
| Cache.JobCache.Set | internal/pbsjob/cache.go:119-148 | replaces the entry unless job or id is missing or the expiration has passed; the other entries stay the same objects |
| Cache.JobCache.Delete | internal/pbsjob/cache.go:150-166 | starts the grace period of a running entry in place, removes an ended one past it, and otherwise changes nothing |
| Cache.JobCache.Cleanup | internal/pbsjob/cache.go:56-68 | removes exactly the ended entries past their grace period, in any order |
| CacheHistory.Bisimulation | internal/pbsjob/cache.go:54-166 | caches that differ only by entries past their grace period look the same to every action and stay so related under every action |
| CacheHistory.CleanupInvisible | internal/pbsjob/cache.go:54-68 | clean-ups inserted or removed anywhere in a history with non-decreasing readings change no result of any `Get`, `IsRunning` or `List` |
| CacheHistory.SameAnswers | internal/pbsjob/cache.go:54-117 | so after two such histories a `Get` finds the same job, the same jobs run, and `List` gives the same |
| CacheHistory.GetExactly | internal/pbsjob/cache.go:56-108 | for every cache and any readings, a `Get` finds the same with a clean-up before the history as without, unless it misses an ended entry that had expired at the clean-up's reading but not at its own and that no step between replaced or removed; then it finds nothing instead of that job |
| CacheHistory.GetNeverMisses | internal/pbsjob/cache.go:56-108 | a clean-up at u is invisible to a `Get` at t for all caches if and only if t >= u, or some step between is an accepted `Set` of the id, or a `Delete` of it or clean-up at a reading of at least u |
| CacheHistory.ListExactly | internal/pbsjob/cache.go:56-86 | a `List` shows the clean-up if and only if a `Get` of some id would |
| CacheHistory.IsRunningNeverShows | internal/pbsjob/cache.go:110-117 | `IsRunning` never shows a clean-up, however stale the readings |
| CacheHistory.CleanupShowsWhenStale | internal/pbsjob/cache.go:56-94 | it happens: from the empty cache with timeout 60, a job set under its own id and deleted at 0 is found by a `Get` at 60, but not when a clean-up that read 61 acts before it |
| CacheHistory.StaleRun | internal/pbsjob/cache.go:56-94 | two goroutines of the machine can make these very moves |
| CacheHistory.EntriesExplained | internal/pbsjob/cache.go:119-166 | for any readings: an entry comes from the last accepted `Set` of its id; it runs while no `Delete` followed, and from the first `Delete` on its expiration is that reading plus the timeout, however often `Delete` is repeated |
| CacheHistory.LeavesOnlyAfterGrace | internal/pbsjob/cache.go:54-68 | for any readings: the step that removes an entry follows a `Delete` since the last accepted `Set`, and its reading exceeds that one plus the timeout, a sum in 64-bit arithmetic |
| CacheHistory.RunningNeverRemoved | internal/pbsjob/cache.go:54-68 | no step removes a running entry, and only `Delete` or a new `Set` of its id changes it |
| CacheHistory.ServedWhileRunning | internal/pbsjob/cache.go:119-148 | after an accepted `Set`, `Get` returns the job exactly until its expiration, while its id is left alone |
| CacheHistory.ServedInGrace | internal/pbsjob/cache.go:150-166 | after a `Delete` that follows, exactly until that reading plus the timeout |
| CacheHistory.MovedSound | internal/pbsjob/cache.go:56-166 | a machine whose goroutines read the clock in one step and act under the lock in another keeps its cache equal to what its finished actions make |
| CacheHistory.RemovedOnlyAfterGrace | internal/pbsjob/cache.go:54-68 | whatever the interleaving, a move of the machine removes an entry only when it acts for a clean-up or `Delete` whose reading exceeds the reading of the first `Delete` since the last accepted `Set` plus the timeout, in 64-bit arithmetic |
| CacheHistory.EveryInterleavingExplained | internal/pbsjob/cache.go:56-166 | hence every reachable cache, under every interleaving and with readings however stale, has only entries that `EntriesExplained` explains |
| Jobs.CacheAttributes | internal/pbsjob/pbsjob.go:49-103 | through the key table, the fields read for a job's id and expiration are the attributes hashname, stime and Resource_List.walltime |
| Jobs.IdOf | internal/pbsjob/pbsjob.go:101-103 | a job's id is its host name up to the first dot, or all of it |
| Jobs.PlacementAttributes | internal/pbsjob/pbsjob.go:49-98 | likewise exec_host2, exec_vnode, schedselect and Resource_List.place |
| Jobs.DescriptionAttributes | internal/pbsjob/pbsjob.go:58-98 | likewise Job_Name, queue, euser and project |
| Jobs.RunAttributes | internal/pbsjob/pbsjob.go:58-98 | likewise interactive, job_state and run_count |
| Jobs.RequestAttributes | internal/pbsjob/pbsjob.go:49-76 | likewise mem, ncpus, nfpgas and ngpus of Resource_List |
| Utils.ParseBytesDecimal | internal/utils/utils.go:57-65 | a printed 64-bit integer parses as itself, whatever the unit parser behind it does |
| Utils.ParseBytesDigits | internal/utils/utils.go:57-65 | digits that 64 bits hold are read as they stand, signed or not; longer ones go to the unit parser |
| Utils.ParseBytesUnits | internal/utils/utils.go:57-65 | any other text, such as "92gb", goes to the unit parser as it stands |
| Utils.TryParseWalltime | internal/utils/utils.go:93-109 | the three parts are indexed and added step by step with 64-bit wrap-around; without a third part it panics |
| Utils.WalltimePanicsExactly | internal/utils/utils.go:99-102 | it panics if and only if the text is not empty and has fewer than two colons, as "1:30" |
| Utils.WalltimeOfParts | internal/utils/utils.go:93-109 | a wall time printed as h:m:s is 3600 h + 60 m + s |
| Utils.WalltimeOfDigits | internal/utils/utils.go:93-109 | for parts of any digits it is 3600 h + 60 m + s in 64-bit arithmetic, whatever comes behind the third part |
| Utils.PaddedWalltime | internal/utils/utils.go:93-109 | and any number of zeros in front of the parts does not matter |
| Utils.WalltimeOfUnreadable | internal/utils/utils.go:100-102 | hours that are no number count nothing |
| Utils.OneHour | internal/utils/utils_test.go:100-119 | "01:00:00" is 3600 seconds, "10:10:10" is 36610, and no text is none |
| Events.DecodeFresh | internal/pbsjob/pbsjob.go:346-351 | decoding into a fresh job object is decoding into the zero job |
| Events.HandleEvent | internal/pbsjob/pbsjob.go:334-368 | one event's effect on the cache: set, delete, ignored, or the program stops |
| Events.PbsJobEvent | internal/pbsjob/pbsjob.go:327-376 | over any list of events, the watcher leaves the cache as its list of cache actions makes it, and stops early exactly when some event, told by its name, operation and bytes, makes it panic or decode forever |
| Events.StopsExactly | internal/pbsjob/pbsjob.go:333-368 | an event stops the watcher exactly when it creates or writes a ".JB" file that is unended or panics, or that decodes to a job with an id and a wall time of one or two parts |
| Events.SurvivesExactly | internal/pbsjob/pbsjob.go:327-376 | so the watcher gets past all events exactly when none of them is such |
| Events.QuietAnywhere | internal/pbsjob/pbsjob.go:333-354 | an event of another suffix or another operation, without content, or with content shorter than 1096 bytes or cut inside a record, changes nothing wherever it comes, and the watcher goes on |
| Events.EndedSets | internal/pbsjob/pbsjob.go:346-356 | a file that ends as it should sets its job under the host name up to its first dot |
| Events.RemovalOf | internal/pbsjob/pbsjob.go:359-364 | a removal deletes what the file's name says up to its first dot, in any directory |
| Events.UnknownSkipped | internal/pbsjob/decode.go:124-128 | a record of a name that no attribute of `Job` has changes nothing for the watcher |
| Events.FileKey | internal/pbsjob/pbsjob.go:360-363 | the name of the file Hashname+".JB", in any directory, gives the same id as the job's host name |
| Events.CreationSets | internal/pbsjob/pbsjob.go:338-358 | an event creating or writing the file of a job sets exactly that job under its id, whatever follows it in the file |
| Events.RemovalDeletes | internal/pbsjob/pbsjob.go:359-364 | the event removing that file deletes the same id |
| Events.JobServedWhileRunning | internal/pbsjob/pbsjob.go:327-376 | from bytes to answers: after the file holding `Marshal(job)` was created or written in time, `Get` returns exactly that job until start time + wall time + timeout, whatever happens to other ids |
| Events.JobServedInGrace | internal/pbsjob/pbsjob.go:327-376 | and after its removal at t exactly while now <= t + timeout |
| Lifetimes.SetExactly | internal/pbsjob/cache.go:119-148 | with start time st and wall time "h:m:s", a `Set` at now makes an entry exactly when now <= st + 3600 h + 60 m + s + timeout and the id is not empty, and otherwise leaves the cache as it was |
| Lifetimes.FoundUntilEnd | internal/pbsjob/cache.go:88-148 | after it, while its id is left alone, `Get` finds the job exactly until that number, and the job runs |
| Lifetimes.NotRunningOnceDeleted | internal/pbsjob/cache.go:110-166 | from the first `Delete` on it does not run |
| Lifetimes.JobServedUntilEnd | internal/pbsjob/pbsjob.go:333-358 | the same from the bytes of the job's file: created or written in time, the job is found exactly until then; too late, nothing changes |
| Lifetimes.AnHourAndAMinute | internal/pbsjob/testdata/job_1000.json:37-40 | a job that starts at 1749249370 for "01:00:00" expires at 1749253030 with timeout 60 |
| Lifetimes.StartUpServes | internal/collector/job.go:46-67 | after start-up a job is found exactly until that number, if its file is the last stored of its id and no reading was past it |
| Lifetimes.StartUpStopsExactly | internal/collector/job.go:54-64 | start-up stops exactly on a file that is unended or panics, or on a job left in the map with an id and a wall time of one or two parts |
| ExecVnodes.MatchHereExact | internal/pbsjob/pbsjob.go:151-154 | at one position the recogniser finds host[index] exactly when the pattern matches there, with unique groups |
| ExecVnodes.FindVnodeLeftmost | internal/pbsjob/pbsjob.go:151-154 | the search finds the leftmost match, and nothing only when there is none |
| ExecVnodes.ReadResources | internal/pbsjob/pbsjob.go:156-161 | the inner loop keeps the last readable value of each resource and skips unreadable ones |
| ExecVnodes.ParseExecVnode | internal/pbsjob/pbsjob.go:141-176 | the map of aggregated vnodes, or an error exactly when some chunk names no vnode |
| ExecVnodes.AggregateIsSum | internal/pbsjob/pbsjob.go:163-172 | the map has one entry for each vnode named, and each resource is the sum over that vnode's chunks in 64-bit arithmetic |
| ExecVnodes.TotalsConserved | internal/pbsjob/pbsjob.go:163-172 | over the vnodes, the map holds in total what the chunks ask in total |
| ExecVnodes.EntriesUnordered | internal/pbsjob/pbsjob.go:141-176 | permuting the entries of any text, well formed or not, changes neither the map nor whether there is an error |
| ExecVnodes.PrimaryVnodeIsKey | internal/pbsjob/pbsjob.go:246-255 | whenever parsing succeeds, `Vnode()`, which reads the bracketed entry, is the index of the first chunk's key in the map |
| ExecVnodesPrinted.PrimaryVnodeOf | internal/pbsjob/pbsjob.go:246-255 | for a text that opens with a bracket and host[index] it is that index, whatever follows |
| ExecVnodesPrinted.NoPrimaryVnode | internal/pbsjob/pbsjob.go:246-255 | where the first part has no "[" there is none, and parsing a text of that part fails |
| ExecVnodesPrinted.NameChars | internal/pbsjob/pbsjob.go:21 | host names are of letters, digits, underscore, dot and hyphen, by their codes |
| ExecVnodesPrinted.FailsExactly | internal/pbsjob/pbsjob.go:144-154 | parsing fails exactly when some part has no host[index] before its first colon, a bracket at either end taken off |
| ExecVnodesPrinted.ParseWritten | internal/pbsjob/pbsjob.go:147-161 | a printed chunk parses to its vnode and its values, with or without a bracket at either end |
| ExecVnodesPrinted.PrintedAggregates | internal/pbsjob/pbsjob.go:137-176 | every printed list of chunks parses; the map has exactly the vnodes written and their sums |
| ExecVnodesPrinted.OneOrder | internal/pbsjob/pbsjob.go:141-176 | "(host[index]:ncpus=n:mem=m:ngpus=g:nfpgas=f)" gives the one vnode with these four values, or nothing for one that cannot be read |
| ExecVnodesPrinted.TwoOrders | internal/pbsjob/pbsjob.go:141-176 | two of them joined by "+" add up on one vnode and stand side by side on two |
| ExecVnodesPrinted.BracketsDoNotMatter | internal/pbsjob/pbsjob.go:137-149 | "(A+B)" and "(A)+(B)", or any other bracketing, give the same map |
| Select.ParseSelect | internal/pbsjob/pbsjob.go:178-203 | the 64-bit total or the error, each chunk adding value times the count in force |
| SelectPrinted.CountedChunk | internal/pbsjob/pbsjob.go:182-199 | a chunk "N:k=v:..." sets the count N and adds N times its values for the resource, or fails when one of these cannot be read |
| SelectPrinted.UncountedChunk | internal/pbsjob/pbsjob.go:183-188 | a chunk whose count is no number keeps the count in force and adds that many times its values |
| SelectPrinted.BareCount | internal/pbsjob/pbsjob.go:183-188 | a chunk that is a bare number adds nothing and does not set the count |
| Select.SelectAppend | internal/pbsjob/pbsjob.go:178-203 | parsing a+b is parsing b from the state a leaves, for any texts |
| Select.SelectJoined | internal/pbsjob/pbsjob.go:178-203 | for any two texts: the total of "a+b" fails exactly when a total fails, and otherwise is the sum of the totals and of a's last count times what b's chunks before its first counted one add once |
| Select.SelectAdditiveExactly | internal/pbsjob/pbsjob.go:178-203 | so it is additive if and only if that carry is a multiple of 2^64 |
| Select.SelectAdditive | internal/pbsjob/pbsjob.go:178-203 | which always holds when b's first chunk has its own count |
| Select.WordIgnored | internal/pbsjob/pbsjob.go:190-192 | a part without "=" adds nothing, wherever it stands |
| Select.NothingSelected | internal/pbsjob/pbsjob_test.go:182-186 | no statement asks for nothing, even of the resource without a name |
| SelectPrinted.AdditivityFails | internal/pbsjob/pbsjob.go:183-188 | additivity fails on "2:ncpus=1" and ":ncpus=1": 2 and 0 alone, 4 together |
| SelectPrinted.PreviousCountKept | internal/pbsjob/pbsjob.go:183-188 | a chunk whose count is no number takes the count of the chunk before it |
| SelectPrinted.PrintedTotal | internal/pbsjob/pbsjob.go:178-203 | the total of any printed statement for a resource is the sum of count times values over its chunks; it fails if and only if some value given for that resource cannot be read |
| SelectPrinted.OneOrder | internal/pbsjob/pbsjob.go:178-203 | "k:ncpus=n:ngpus=g:mem=m:nfpgas=f" totals k times the value of the resource asked for, or fails where that cannot be read |
| SelectPrinted.TwoOrders | internal/pbsjob/pbsjob.go:178-203 | two of them joined by "+" add up, each with its own count |
| SelectPrinted.OtherResourcesIgnored | internal/pbsjob/pbsjob.go:190-199 | fields about other resources can be inserted, dropped or changed, and need not be numbers: counts and the fields about the resource decide |
| SelectPrinted.ChunksUnordered | internal/pbsjob/pbsjob.go:178-203 | the order of the chunks does not matter, to the total or to failing |
| ListFormat.ParseListFormat | internal/utils/utils.go:67-91 | the two nested loops, with their 64-bit counter, append the numbers of each part; they end exactly when each range's loop ends |
| ListFormat.LoopEndsExactly | internal/utils/utils.go:82-84 | a range loop ends if and only if its end is not the largest int: there the wrapping counter never exceeds it |
| ListFormat.NeverEnds | internal/utils/utils.go:77-84 | the program never ends on "0-9223372036854775807" |
| ListFormat.EndClamps | internal/utils/utils.go:79-80 | an end between there and 2^64 reads as the largest int too |
| ListFormat.PrintedList | internal/utils/utils.go:67-91 | parsing the print of any list of ranges, with any space around it, yields the ranges' numbers in order, and ends if and only if no range goes up to the largest int |
| ListFormat.PartOfDigits | internal/utils/utils.go:76-87 | a part of any digits is its decimal value; two joined by a hyphen are all numbers from the first to the second, whatever comes behind another hyphen; no digits are 0 |
| ListFormat.ListOfParts | internal/utils/utils.go:69-76 | parts joined by commas, with spaces or control characters 9 to 13 around them, are listed one after the other |
| ListFormat.SevenCpus | internal/utils/utils_test.go:80-98 | "0-2,7,12-14" lists 0, 1, 2, 7, 12, 13 and 14, and no text lists nothing |
| ListFormat.ExpandedLength | internal/utils/utils.go:82-84 | as many numbers as the sum of b-a+1 |
| ListFormat.ExpandedIncreasing | internal/utils/utils.go:82-84 | increasing disjoint ranges give strictly increasing numbers |
| ListFormat.CpuCount | internal/cgroups/cgroups_v1.go:231-238 | so the CPU count of such a list, where parsing ends, which is when no range goes up to the largest int, is the number of different CPUs |
| PbsNode.NodeState | internal/pbsnode/pbsnode.go:114-141 | the sum of the values of the names in the list, in 64-bit arithmetic |
| PbsNode.NodeStates | internal/pbsnode/pbsnode.go:143-175 | rewriting the list in place gives the lower-cased names, or an error exactly when one is unknown |
| PbsNode.IsAvailable | internal/pbsnode/pbsnode.go:177-209 | some available state and no unavailable one, or the error of `NodeStates` |
| PbsNode.AllBits | internal/pbsnode/pbsnode.go:116-134 | the map gives each of its seventeen names a bit of its own |
| PbsNode.TablesAgree | internal/pbsnode/pbsnode.go:116-194 | the four tables agree: the valid states are the names of all seventeen bits, the available ones those of bits 0 to 4, the unavailable ones those of bits 5 to 12 |
| PbsNode.TotalIsMask | internal/pbsnode/pbsnode.go:136-138 | the total is at least the mask of the names that occur, and equals it exactly when no known name repeats |
| PbsNode.StateNumbers | internal/pbsnode/pbsnode.go:116-134 | the number each of the seventeen names adds |
| PbsNode.NodeStateNumbers | internal/pbsnode/pbsnode_test.go:270-288 | no state is 0, "free" is 1 and "free,down,offline" is 161 |
| PbsNode.NodeStateBits | internal/pbsnode/pbsnode.go:114-141 | when none repeats, nothing wraps around and a state's bit is set if and only if its name occurs, in any order and with unknown names allowed |
| PbsNode.RepetitionMisleads | internal/pbsnode/pbsnode.go:136-138 | "free,free" adds up to the bit of "busy" |
| PbsNode.AvailableByBits | internal/pbsnode/pbsnode.go:177-209 | on known lower-case names without repetition, available means: a bit in 1..16 is set and none in 32..4096 |
| PbsNode.AvailabilityOf | internal/pbsnode/pbsnode.go:177-209 | which states, in any case of letters, make a node available alone, and which take a free node out of use |
| BlockIo.Aggregation.Get | internal/cgroups/cgroups_v1.go:78-83 | the counters of a device, created as zeros on first use, the others untouched |
| BlockIo.Aggregation.CountBytes | internal/cgroups/cgroups_v1.go:85-93 | one entry of the first loop |
| BlockIo.Aggregation.CountIos | internal/cgroups/cgroups_v1.go:95-103 | one entry of the second loop |
| BlockIo.StatBlkio | internal/cgroups/cgroups_v1.go:75-108 | the usages reported are the entries of the aggregated map, each once, in any order |
| BlockIo.UsageSums | internal/cgroups/cgroups_v1.go:85-103 | one usage for each device either input mentions, each of the four counters the sum of its own matching entries |
| BlockIo.UsageByOperation | internal/cgroups/cgroups_v1.go:81-108 | a device's four counters are the sums of its "Read" and "Write" entries of the two inputs, modulo 2^64; entries of other operations count nothing |
| BlockIo.TotalsConserved | internal/cgroups/cgroups_v1.go:85-107 | over the devices, each counter's total is the total of the matching entries |
| BlockIo.UsageUnordered | internal/cgroups/cgroups_v1.go:85-107 | neither input order nor map order changes the usages reported |
| Collector.ParseJobFiles | internal/pbsjob/pbsjob.go:273-311 | the jobs of the files that decode, each under its id, for any order in which the goroutines store them |
| Collector.ParsedFilesExactly | internal/pbsjob/pbsjob.go:281-308 | the map holds an id exactly when some file decodes to a job of that id, and then the job of the last such file to be stored |
| Collector.InitialiseJobCache | internal/collector/job.go:46-67 | for any map order and clock: it panics or hangs exactly when some file does or some parsed job's wall time cannot be read; otherwise the cache is what its sets make of the empty one, each entry the fresh entry of a parsed file under its job's id, and every job still to expire is there |
| Collector.KeyedRun | internal/pbsjob/cache.go:119-166 | any history whose sets use their job's id keeps the cache keyed, clean-ups and deletes included |
| Collector.WatchedCacheKeyed | internal/pbsjob/pbsjob.go:357-364 | whatever file events arrive, a keyed cache stays keyed |
| Collector.ReachableIsKeyed | internal/collector/job.go:46-67 | every cache the program can come to is keyed by its jobs' ids: start-up sets, reactions to events, deletions and clean-ups, interleaved in any way and with stale readings |
| Collector.StaleRunIsReachable | internal/pbsjob/cache.go:56-94 | the run in which a `Get` misses a job because of a clean-up is one the program can make: the watcher sets that job when its file is created |
| Collector.CollectReachable | internal/collector/job.go:217-383 | so from every reachable cache one collection emits exactly the series of the active jobs, none twice |
| Collector.CollectVnodes | internal/collector/job.go:234-264 | in any map order: four series for each vnode of this host, none twice, and nothing else |
| Collector.CollectJob | internal/collector/job.go:223-382 | the series of one job, none twice, common ones on the primary node only |
| Collected.JobSeriesExactly | internal/collector/job.go:224-379 | metric by metric, told by the job's attributes: allocated series carry id, run count and index of each vnode of the host; the others are emitted exactly where the host's name begins the part of exec_host2 before the first "+", each with its labels in order, the end time only if job_state is not "R" |
| Collected.JobCollected | internal/collector/job.go:217-381 | so the body of the loop emits exactly these, none twice |
| Collected.AllCollected | internal/collector/job.go:217-381 | and a collection exactly those of the entries that have not expired |
| Collected.JobDescribed | internal/pbsjob/pbsjob.go:58-103 | every job has attributes to be told by |
| Collector.JobsApart | internal/collector/job.go:223-226 | series of different jobs differ, because their first labels do |
| Collector.Collect | internal/collector/job.go:217-383 | from a keyed cache, one collection emits exactly the series of the active jobs, and never the same metric with the same labels twice |

## Left out

- RoundTrip.RoundTrips: requires texts whose sizes fit the header's 32 bits and record lengths that do not wrap to the end flag, because the encoder truncates the sizes of longer texts; the truncation itself is in `Encode.RecordHeader`.
- Collector.Collect: says which metric and labels are emitted, not the metric values, which are float conversions of single fields.
- Utils.ParseBytes: `units.RAMInBytes` is not part of this model; any function may stand for it.
- Separators of more than one character, and kinds other than booleans, integers, strings and lists of them: no field of `Job` has them.
- Errors of writers and readers other than running out of data, and the chunks in which a buffered reader delivers data.
- `encodeHeader` and `decodeHeader`, which only pass a struct to `encoding/binary` and are not part of decoding a job.
- The attribute header object that `Decode` reuses: each record overwrites all of it, so it is a value here.
- Capacity of the slices that `append` extends in the key table and in the label lists: each has none to spare where it is extended, so nothing is shared.
- The lock itself: actions under it are single steps of the machine in `CacheHistory`; the race detector's view of memory is not modelled.
- Directory listing, opening files, `fsnotify`, tickers: they appear as lists of file contents, lists of events, and readings.
- `NodeSelect`, which reads only the first chunk's count, and the pattern of `pbsnode.go`, which matches one-digit indices: the program promises nothing more about them.
- JSON decoding of nodes, version 2 control groups, CPU and memory metrics, Prometheus descriptors, HTTP, flags, logging and dashboards.
- Spaces outside ASCII in `strings.TrimSpace`, and Unicode case mapping.
