# Verification of the push pipeline

A Dafny model of how aeroflare decides which store paths to push and what it may index, together with
the codecs, caches and stores that decision rests on. The Dafny files follow the program's own parts:

- `Reachability`, `ReferenceWalk`, `PreparedClosure`: the level-by-level walk over the reference graph,
  as a function of what the Nix store and the upstream caches answer, and what it computes: a
  breadth-first forest. `Preparation` is the program itself, result objects on the heap and a mutable
  visited set, proved to build that forest.
- `Publication`, `DepthFirst`: flattening a result graph into tasks and the memoised check that decides
  what is safe to index, on arbitrary graphs, and the order of both; `CyclicGate` says on which graphs that
  check is exact. `Push` is the program: recursive closures over shared maps and lists. `PushRun` is one
  chunk and the chunk loop. `Pipeline` puts preparation and publication together.
- `Upstreams`: several upstreams queried as one, the filter on build outputs, and when a reference dangles.
- `Base32`: the Nix base32 codec over bytes, its loops working in place on buffers.
- `ExistenceCache`, `WorkerPool`: the shared-request protocol and the buffered pools as step relations over
  program counters, one atomic action a step, with invariants over every schedule. `BatchQuery` is the two
  together: a pool whose jobs are calls of the cache.
- `Text`, `NarinfoText`, `ServedNarinfo`, `Signing`, `Layer`: the narinfo format from printer to parser,
  through manifest annotations to the two servers, and what signatures and layer digests survive.
  `AbsoluteReferences` says which lists of references a fingerprint tells apart.
- `Secrets`: the two-backend secrets manager as a map. `ChangedBuilds`: CI runs that build only a diff.
- `Sequences`, `Sorting`: shared facts about lists.

Each loop of the program is a method proved against a specification function or an outright property;
the theorems are about those specifications. What is written or chosen in the end (digits, numbers, sorted
lists, labels, lines, kept paths) is also stated by itself, without the function that makes it. What the
outside world says (path info, whether a hash is held, whether an upload succeeds, whether a commit
evaluates, a signature scheme) is a parameter and is arbitrary unless a lemma says otherwise.

## What the code does not keep

The model follows the code where its comments promise more, or where a caller would expect more:

- `pkg/push/push.go:418-419` says that only paths whose full closure was uploaded are indexed. The gate
  protects a reference exactly if it is the path itself or was linked under it, that is, if it is one
  level further from the requested paths (`Pipeline.ProtectedIffLinked`, `Pipeline.FullClosurePromiseIff`;
  `Pipeline.RootToRootIsUnprotected` has two requested paths of which one refers to the other).
- `pkg/push/complete.go:25` takes a path in progress for complete. For every order of the links, all
  results and every outcome of uploads the gate is exact, if and only if the result graph has no detours:
  whatever the end of a repetition-free path reaches, the start of that path aside, it also reaches
  without touching the path again (`CyclicGate.GateIsExactIff`; `Publication.CycleIsOverApproximated` has
  a cycle with a detour). Acyclic graphs have none, and preparation builds no others
  (`Reachability.AcyclicHasNoDetours`, `PreparedClosure.LinksFormLevels`). What the gate excludes always
  does reach a failed path.
- `pkg/prepare/hash/hash.go:66-71` indexes its buffer out of range exactly for a non-empty string that
  starts with a digit and whose length is 1, 3 or 6 modulo 8 (`Base32.DecodeSucceedsIff`; the string `0` in
  `Base32.OneDigitIsOutOfRange`). A narinfo with such a file hash takes `NewLayerFast` there
  (`Layer.LayerMadeIff`; the file hash `sha256:0` in `Layer.ShortFileHashPanics`).
- `pkg/prepare/cache/cache.go:86-89`: a call that waited for a request that failed reports the hash absent,
  without an error. On a new cache every such report has a 404 behind it, under every schedule, if and only
  if no two calls are for the same hash (`ExistenceCache.AbsenceIsAnsweredIff`; the schedule is in
  `ExistenceCache.WaiterReportsAbsentAfterFailure`). The batches of the walk ask for distinct hashes
  (`Preparation.CollectReferenceHashes`); a path prepared on its own asks once for each reference
  (`Preparation.HashPerReference`), hashes that repeat included. Either way such a report never gets into an
  answer: the call that sent the request returns the error, so a batch that returns without one has a 200 or
  404 behind each hash (`BatchQuery.BatchIsAnswered`).
- `pkg/prepare/prepare/prepare.go:354-358` drops a reference whose name does not parse, if the batch was
  answered with anything at all. Everything the build outputs refer to is prepared or held upstream if and
  only if each such reference of a prepared path is a build output or has a prepared referrer whose batch had
  no hit (`Upstreams.NoDanglingIff`; `Upstreams.OddNameDangles` has a reference that is lost). If all names
  parse, nothing is ever lost (`Upstreams.NoDanglingReferences`).
- `pkg/prepare/signing/signing.go:92-107` joins absolute references by commas. Lists of references written
  without commas are told apart by their fingerprints if and only if the store directory leaves no room for
  a reference that itself reads as a list (`Signing.ReferencesToldApartIff`). A directory leaves room for one
  if its pieces between commas are absolute paths in order, the last of which may be empty and, with a slash
  after it, sorts after the one before it or begins it (`AbsoluteReferences.AmbiguousDir`; the directory
  `/a,/a` in `Signing.CommaInStoreDirCollides`). A directory without a comma never does.
- `internal/secrets/manager.go:142-165` accepts keys that its comma-separated index cannot hold. The index
  is right after a write exactly if the key is not empty and has no comma (`Secrets.Manager.Set`); a secret
  under the key `a,b` is listed as `a` and `b` (`Secrets.CommaKeyIsListedInPieces`).
- `internal/ci/changed.go:258-260` says nothing is lost by walking back to an older base. Nothing is lost,
  whatever the derivations, exactly if each base used was itself run before, or the run built everything
  (`ChangedBuilds.CoverageIff`; `ChangedBuilds.WalkBackReachesUnrunCommit` has a base that never ran).

## Model

| member | source | states |
|---|---|---|
| ReferenceWalk.WalkLevelled | pkg/prepare/prepare/prepare.go:371-436 | The walk from any paths, on any finite graph, cyclic or not, prepares no visited path again, gives each path one level, gives each path below the first level a parent one level up, and links exactly the missing references that lie one level deeper |
| ReferenceWalk.AllMissingInOrder | pkg/prepare/prepare/prepare.go:404-413 | What a level is missing is listed once each, where it first occurs in the lists of its paths |
| PreparedClosure.DepthIsDistance | pkg/prepare/prepare/prepare.go:371-436 | The level a path is prepared at is its shortest distance from the requested paths over missing references |
| PreparedClosure.LinkIffNextDistance | pkg/prepare/prepare/prepare.go:371-436 | A result is linked under another iff it is one of its missing references and its breadth-first distance is larger by one, for single paths and batches |
| PreparedClosure.LinksFormLevels | pkg/prepare/prepare/prepare.go:182-217 | The links are acyclic, stay among prepared paths and never lead to a requested path |
| PreparedClosure.HangsFromRoot | pkg/prepare/prepare/prepare.go:182-217 | Every prepared path is reached from a requested one through links alone |
| PreparedClosure.PreparedIsMissingClosure | pkg/prepare/prepare/prepare.go:371-436 | Whatever upstreams answer, or fail to, the prepared paths are exactly those reachable from the requested ones through references found missing |
| PreparedClosure.PreparedExactly | pkg/prepare/prepare/prepare.go:371-436 | With truthful upstreams and names that parse these are exactly the paths reachable through references no upstream holds |
| PreparedClosure.PreparationFailsIff | pkg/prepare/prepare/prepare.go:371-436 | With truthful upstreams preparation fails iff some path of that closure has no path info or cannot be written |
| Preparation.MarkNewPaths | pkg/prepare/prepare/prepare.go:372-378 | Takes the first occurrence of each path not visited before, at those places and in order, and marks exactly these |
| Preparation.GatherPathInfos | pkg/prepare/prepare/prepare.go:270-277 | Fails iff some path has no info, else holds each path's references |
| Preparation.CollectReferenceHashes | pkg/prepare/prepare/prepare.go:283-302 | Collects exactly the hashes of the references whose names parse, each once |
| Preparation.ComputeMissingRefs | pkg/prepare/prepare/prepare.go:345-364 | An empty answer leaves all references; any other keeps, in place, exactly those whose name parses and whose hash is not mapped to true |
| Preparation.WriteNars | pkg/prepare/prepare/prepare.go:442-502 | One fresh result a path in the order of the paths, or failure iff one cannot be written |
| Preparation.LinksFor | pkg/prepare/prepare/prepare.go:426-432 | Looks up exactly those missing references that were prepared one level below, in order and with repetitions |
| Preparation.LinkResults | pkg/prepare/prepare/prepare.go:421-432 | Sets every result's links by that lookup and changes nothing else |
| Preparation.PrepareRefsRecursive | pkg/prepare/prepare/prepare.go:371-436 | Terminates on every finite graph; the objects it builds represent the forest of the specification, one for each path, and visited grows by exactly the prepared paths |
| Preparation.PrepareNewPaths | pkg/prepare/prepare/prepare.go:383-435 | The same for one level of paths just marked: it succeeds iff all of them and all below can be prepared |
| Preparation.PrepareBelow | pkg/prepare/prepare/prepare.go:415-433 | Prepares what a level is missing and links it under the level; no path below shares a result object, or its path, with another |
| Preparation.PrepareBatch | pkg/prepare/prepare/prepare.go:105-221 | Succeeds iff the walk does; results come in the order requested, the objects represent the prepared graph, and each path that was not requested has exactly one |
| Preparation.Prepare | pkg/prepare/prepare/prepare.go:49-94 | The same for a single path, whose links are taken from the walk as they come; every path has exactly one result |
| Preparation.HashPerReference | pkg/prepare/prepare/prepare.go:323-332 | One hash for each reference whose name parses, in order, repetitions included |
| Preparation.CheckReferences | pkg/prepare/prepare/prepare.go:318-340 | The missing references of one path queried on its own |
| Publication.FlattenListsReachable | pkg/push/prepared.go:51-69 | On any closed result graph each path reachable from a result is listed exactly once and no other |
| Publication.FlattenFlagsRoots | pkg/push/prepared.go:51-69 | If no link leads to a result, isRoot is set on exactly the results |
| DepthFirst.FlattenIsDepthFirst | pkg/push/prepared.go:51-69 | Each task is the next unlisted link of the latest path that has one, unflagged, or else the next requested path, flagged: the list is the depth-first order and no other |
| Publication.CompleteExact | pkg/push/complete.go:19-36 | With a right memo, on a graph without detours, the check says yes iff everything reachable was uploaded, below a trail of paths in progress, and leaves the memo right |
| Publication.CompleteFalseIsSound | pkg/push/complete.go:19-36 | On any graph, cyclic too, a no means that a failed path really is reachable |
| Publication.CompleteReceiptsExact | pkg/push/complete.go:15-66 | On an acyclic graph a path is published iff it is reachable and everything reachable from it was uploaded |
| Publication.CompleteReceiptsSplit | pkg/push/complete.go:15-66 | On any graph published and excluded are duplicate-free, disjoint and together the reachable uploaded paths; each excluded one reaches a failed one |
| DepthFirst.ReceiptsInOrder | pkg/push/complete.go:42-62 | On any graph published and excluded paths come in the order of the task list |
| Publication.GateIsExactWithoutDetours | pkg/push/complete.go:15-66 | The same on every graph without detours, cyclic or not |
| Publication.CycleIsOverApproximated | pkg/push/complete.go:25-25 | A graph with a cycle on which a path that reaches a failed one is published |
| CyclicGate.GateIsExactIff | pkg/push/complete.go:23-33 | The gate is exact for every order of the links, all results and every outcome of uploads iff the graph has no detours |
| CyclicGate.DetourMisleads | pkg/push/complete.go:23-33 | Where links are listed along a trail with a detour, the failure of one path makes the gate publish a path that reaches it |
| Reachability.AcyclicHasNoDetours | pkg/push/complete.go:23-25 | Acyclic graphs have no detours |
| Push.Flattener.CollectResult | pkg/push/push.go:310-321 | The recursive closure over seen and tasks computes the depth-first listing of the specification |
| Push.FlattenTasks | pkg/push/prepared.go:51-69 | The task list equals that listing, each task holding a result of its path |
| Push.ReceiptGate.CompleteResult | pkg/push/complete.go:19-36 | The memoised closure computes the specification's answer and memo |
| Push.ReceiptGate.WalkResult | pkg/push/complete.go:42-62 | The walk visits in depth-first order and sorts uploaded paths into receipts and excluded |
| Push.CompleteReceiptsOf | pkg/push/complete.go:15-66 | Receipts are those of the published paths in order; excluded lists the others in byte order |
| PushRun.UploadTaskSet | pkg/push/prepared.go:149-218 | In whatever order uploads finish, receipts are those of exactly the successful tasks, failures the others, and the counts add up |
| PushRun.PushChunk | pkg/push/push.go:264-443 | One chunk prepared, flattened, uploaded and gated: it fails to prepare, uploads nothing, fails to index or is finished, each exactly under its condition, with the counts of what it did |
| PushRun.FinishedIffPrepared | pkg/push/push.go:413-442 | If no upload and no indexing fails, a chunk is finished iff it can be prepared |
| PushRun.RunPushTo | pkg/push/push.go:263-443 | The run completes iff every slice of a hundred paths is finished, and otherwise stops at the first that is not, with its reason; the chunks are those slices in order; on completion uploaded plus failed equals the number of tasks, and roots are the published requested paths |
| PushRun.SlicesAre | pkg/push/push.go:263-269 | The slices are a hundred paths each, one after the other, the last one what is left |
| PushRun.SumIs | pkg/push/push.go:413-454 | The failures, tasks and published requested paths of a run are those of its chunks, one after the other |
| PushRun.RootFlags | pkg/push/push.go:395-403 | The receipts flagged as roots are exactly those of requested paths |
| Pipeline.TasksArePreparedPaths | pkg/push/prepared.go:101-117 | The tasks of a prepared graph are exactly its paths, each once |
| Pipeline.TasksFlagRoots | pkg/push/prepared.go:51-69 | On what preparation built, isRoot is set on exactly the requested paths |
| Pipeline.PublishedIff | pkg/push/complete.go:49-62 | A prepared path is published iff everything linked below it was uploaded |
| Pipeline.PublishedClosedUnderLinks | pkg/push/complete.go:49-62 | Whatever uploads fail, everything linked below a published path is published |
| Pipeline.SingleRootPublishedIff | pkg/push/prepared.go:232-238 | A single requested path is published iff its whole missing closure was uploaded |
| Pipeline.NoFailurePublishesAll | pkg/push/push.go:418-420 | If no upload fails, everything prepared is published, closed under missing references |
| Pipeline.ProtectedIffLinked | pkg/push/push.go:418-420 | A missing reference is published with the path for every outcome of uploads iff it is the path itself or linked under it |
| Pipeline.FullClosurePromiseIff | pkg/push/push.go:418-419 | The comment's promise holds for every outcome of uploads iff every missing reference is linked or reflexive |
| Pipeline.RootToRootIsUnprotected | pkg/push/push.go:418-419 | Two requested paths, one referring to the other, of which the first is published without the second |
| Pipeline.ChunkIndexIsClosed | pkg/push/push.go:420-442 | What a chunk indexes is uploaded and closed under links |
| Pipeline.ChunkWithoutFailures | pkg/push/push.go:420-442 | A chunk without failures indexes every prepared path with all its missing references |
| Upstreams.GroupExistsBatch | pkg/prepare/cache/group.go:46-74 | In whatever order members answer or fail, a hash is in the map, as true, iff it was asked for and some member that did not fail holds it |
| Upstreams.FilterRoots | internal/ci/filter.go:21-50 | Without upstreams all outputs are kept; otherwise, in place, exactly those whose name does not parse or whose hash no answering member holds, and skipped counts the places of the others |
| Upstreams.NoDanglingIff | pkg/prepare/prepare/prepare.go:345-364 | For every set of failing queries, everything the build outputs refer to is prepared or really held by some upstream, iff each reference of a prepared path whose name does not parse is a build output or has a prepared referrer whose batch had no hit |
| Upstreams.NoDanglingReferences | pkg/prepare/prepare/prepare.go:345-364 | If all names parse, that holds whatever queries fail |
| Upstreams.OddNameDangles | pkg/prepare/prepare/prepare.go:354-358 | A build output, prepared while every upstream answers, whose reference is neither prepared nor held, for its name alone |
| Base32.BuildIndex | pkg/prepare/hash/hash.go:16-23 | The table holds each alphabet character's place and 0xFF elsewhere |
| Base32.DigitOfIs | pkg/prepare/hash/hash.go:8-23 | The table marks exactly the characters that are no digits of Nix base32, and gives every other one the number of digits below it |
| Base32.IsBase32Iff | pkg/prepare/hash/hash.go:8-10 | A string has digits only iff it holds nothing but the characters 0 to 9 and a to z without e, o, t and u |
| Base32.EncodeBase32 | pkg/prepare/hash/hash.go:30-51 | The buffer is filled with the digits of Nix base32 (digits and letters but e, o, t, u, each worth the number of digits below it), no more than needed, that write the same number as the bytes |
| Base32.WritesOnce | pkg/prepare/hash/hash.go:30-51 | There is no other such string for the data |
| Base32.EncodeKeepsBits | pkg/prepare/hash/hash.go:36-48 | Bit k of the data is bit k of the string, counted from its last digit; the rest is zero |
| Base32.EncodeKeepsValue | pkg/prepare/hash/hash.go:30-51 | The big-endian base-32 number of the string is the little-endian base-256 number of the data |
| Base32.StoreDigit | pkg/prepare/hash/hash.go:66-72 | Or-ing a digit in changes at most two bytes, as specified |
| Base32.DecodeBase32 | pkg/prepare/hash/hash.go:54-77 | The loop ends with the specified bytes, the first invalid character, or an index out of range |
| Base32.IndexInRange | pkg/prepare/hash/hash.go:63-72 | For the lengths the encoder produces every index of the loop is in range |
| Base32.EncodedLengths | pkg/prepare/hash/hash.go:35-35 | The lengths the encoder produces are exactly those congruent to 0, 2, 4, 5 or 7 modulo 8 |
| Base32.DecodeEncode | pkg/prepare/hash/hash.go:30-77 | Decoding what was encoded gives the bytes back |
| Base32.DecodedBit | pkg/prepare/hash/hash.go:58-75 | Bit k of any string, counted from its last digit, is bit k of what is decoded |
| Base32.EncodeDecode | pkg/prepare/hash/hash.go:30-77 | Encoding what was decoded gives the string back iff the spare bits of its first digit are zero |
| Base32.DecodeSucceedsIff | pkg/prepare/hash/hash.go:54-77 | Decoding succeeds iff all characters are digits and the length is one the encoder produces; it leaves the buffer iff the first character is a digit and the length is another |
| Base32.InvalidIff | pkg/prepare/hash/hash.go:63-65 | The error names position n iff that is the first character that is no digit and the decoder gets that far |
| Base32.OneDigitIsOutOfRange | pkg/prepare/hash/hash.go:58-71 | The string 0 takes the decoder out of its buffer |
| ExistenceCache.StepInv | pkg/prepare/cache/cache.go:70-112 | Every atomic step keeps the invariant: mutex held by one call, results and in-flight entries disjoint, each entry and open channel owned by one call, recorded results answered by the server |
| ExistenceCache.InterleavingsAreSafe | pkg/prepare/cache/cache.go:70-112 | After any schedule no channel was closed twice, results and in-flight keys are disjoint, each in-flight hash has exactly one owner, and every waiter's channel is closed or owned |
| ExistenceCache.ReportsAreJustified | pkg/prepare/cache/cache.go:108-111 | A call returns true only after a 200 for its hash |
| ExistenceCache.ResultsAreFinal | pkg/prepare/cache/cache.go:102-104 | A result recorded after any schedule stays as it is under any further schedule, and no request for its hash is sent in it |
| ExistenceCache.RequestsAreShared | pkg/prepare/cache/cache.go:67-70 | Whatever the schedule, the requests sent for a hash are at most one more than those that failed |
| ExistenceCache.SomeoneCanRun | pkg/prepare/cache/cache.go:79-90 | Until all calls are done some call can go on: no lost wake-up, no deadlock |
| ExistenceCache.StepsRunOut | pkg/prepare/cache/cache.go:70-112 | Every step uses up bounded work, so every call ends |
| ExistenceCache.AbsenceIsAnsweredIff | pkg/prepare/cache/cache.go:79-104 | On a new cache every report of absence has a 404 for the hash behind it, under every schedule, iff no two calls are for the same hash |
| ExistenceCache.WaiterReportsAbsentAfterFailure | pkg/prepare/cache/cache.go:86-89 | For any calls of which two are for one hash, a schedule in which the waiting one reports absence though no 404 was received |
| ExistenceCache.SuccessIsAnswered | pkg/prepare/cache/cache.go:96-111 | If every call returns without an error, no request failed and each answer, true or false, has its 200 or 404, however often a hash is asked for |
| WorkerPool.StepKeepsInv | pkg/prepare/cache/cache.go:154-190 | Every step keeps unsent, queued, in hand, delivered and taken jobs together exactly the jobs given |
| WorkerPool.SendsNeverBlock | pkg/prepare/cache/cache.go:154-155 | No send on either buffered channel ever blocks or hits a closed channel, even after an early return |
| WorkerPool.SuccessTakesAll | pkg/prepare/prepare/prepare.go:494-501 | A pool that returns without error took the result of every job exactly once |
| WorkerPool.FailureIsReal | pkg/prepare/cache/cache.go:183-186 | A pool that returns an error took the result of a job that failed |
| WorkerPool.SuccessIsScheduleIndependent | pkg/prepare/prepare/prepare.go:484-501 | On success results[i] is the result for paths[i], whatever the schedule |
| WorkerPool.SuccessTabulatesAll | pkg/prepare/cache/cache.go:182-190 | On success the map's keys are exactly the hashes given, each with the answer of one of its jobs |
| WorkerPool.SomeoneCanStep | pkg/prepare/cache/cache.go:161-180 | Some goroutine can go on until the reader returned and all workers left, so none leaks |
| WorkerPool.StepsRunOut | pkg/prepare/cache/cache.go:154-190 | Every step uses up bounded work |
| BatchQuery.BatchIsAnswered | pkg/prepare/cache/cache.go:143-191 | For every schedule of pool and calls, number of workers and server: a batch that returns without an error answers for exactly the hashes asked, each with the 200 or 404 received for it |
| BatchQuery.BatchIsExact | pkg/prepare/cache/cache.go:143-191 | Where the server tells the truth, that is which of the hashes it holds |
| BatchQuery.BatchFailsIff | pkg/prepare/cache/cache.go:182-186 | Unless a call is cancelled, a batch that returns fails iff some request got neither 200 nor 404 |
| BatchQuery.SomeoneCanStep | pkg/prepare/cache/cache.go:154-180 | Until the batch has returned and its workers have left, some goroutine can go on: the pool cannot deadlock with the calls it waits for |
| BatchQuery.StepsRunOut | pkg/prepare/cache/cache.go:143-191 | Every step of either uses up bounded work |
| Text.ParseFormat | pkg/prepare/narinfo/narinfo.go:87-92 | Parsing the decimal notation of any 64-bit number gives it back |
| Text.FormatIntIs | pkg/prepare/narinfo/narinfo.go:33-35 | A number is written in decimal digits without leading zeros that are worth it, after a minus sign if it is negative |
| Text.ParseIntIs | pkg/prepare/narinfo/narinfo.go:87-92 | What any text is read as: the number its digits are worth, or the nearest 64-bit one, or 0 |
| Text.FieldsParted | pkg/prepare/narinfo/narinfo.go:94-96 | White space parts the fields before it from those after it |
| Text.FieldsOfOne | pkg/prepare/narinfo/narinfo.go:94-96 | A text without white space is one field, or none if it is empty |
| Text.IsSpaceIff | pkg/oci/oci.go:77-89 | White space is the space and the characters 9 to 13 |
| Text.LinesParted | pkg/prepare/narinfo/narinfo.go:65-67 | The first newline ends the first line, a carriage return before it left out, and an empty rest is no line |
| Text.ColonSpaceIsFirst | pkg/prepare/narinfo/narinfo.go:71-76 | The key ends at the first colon followed by a space |
| NarinfoText.String | pkg/prepare/narinfo/narinfo.go:27-60 | The builder holds the rendered lines, with the space after an empty References and without empty Deriver, System and Sig |
| NarinfoText.PrintIs | pkg/prepare/narinfo/narinfo.go:27-60 | The text of every narinfo, word for word |
| NarinfoText.Parse | pkg/prepare/narinfo/narinfo.go:63-108 | The loop over lines ends with the specified narinfo |
| NarinfoText.ParsedFields | pkg/prepare/narinfo/narinfo.go:63-108 | Whatever the text, each field is what the last line of its key says, for references and the deriver the last one that is not empty |
| NarinfoText.KeyNamedIff | pkg/prepare/narinfo/narinfo.go:78-106 | A line is read for a key iff it begins with the word printed for it |
| NarinfoText.ParsePrint | pkg/prepare/narinfo/narinfo.go:27-108 | For values without newlines, what is parsed from the printed text, field by field |
| NarinfoText.RoundTripIff | pkg/prepare/narinfo/narinfo.go:27-108 | A narinfo is read back as it was iff no value has a newline or a final carriage return and each reference is non-empty without white space |
| ServedNarinfo.ParseAeroflareMetadata | pkg/oci/oci.go:72-96 | The loop makes the specified annotations, or fails at the first line without a colon |
| ServedNarinfo.AnnotationsIff | pkg/oci/oci.go:72-96 | Whatever the lines, they are refused iff one of them, not blank, has no colon; otherwise each key, in lower case, has the value in its last line |
| ServedNarinfo.LowerIs | pkg/oci/oci.go:86-87 | Capital letters are lowered by 32, other characters stay |
| ServedNarinfo.AnnotatedValue | pkg/oci/oci.go:72-96 | The annotations of a narinfo's own text hold exactly its values, trimmed, and no CA |
| ServedNarinfo.ServeNativeNarinfo | pkg/proxy/proxy_server.go:296-347 | The body is rendered from the first of annotations, manifest labels and config labels that has a store path; there is none iff none has |
| ServedNarinfo.ServedIs | pkg/proxy/proxy_server.go:306-339 | The text made of any labels, word for word |
| ServedNarinfo.PushedIsFound | pkg/proxy/proxy_server.go:141-154 | A pushed narinfo with a store path is served from its own annotations |
| ServedNarinfo.ServedIff | pkg/proxy/proxy_server.go:306-339 | What the proxy serves is byte for byte the pushed text iff no value has white space at its ends |
| ServedNarinfo.GenerateNarinfo | proxy/no-webui-native/worker.js:204-215 | The joined lines are the rows of the field table in order |
| ServedNarinfo.WorkerTextIs | proxy/no-webui-native/worker.js:13-26 | The text the Worker makes of any annotations, word for word |
| ServedNarinfo.WorkerIff | proxy/no-webui-native/worker.js:204-215 | The Worker's text is byte for byte the pushed text iff besides that the mandatory values are there |
| ServedNarinfo.PullIff | pkg/oci/network.go:329-359 | The narinfo rebuilt from annotations is the pushed one iff its values are trimmed and single spaces part its references |
| ServedNarinfo.PrintersAndReadersAgree | pkg/oci/network.go:303-311 | On a well-formed narinfo the three printers write the same bytes and both readers give it back |
| Signing.Fingerprint | pkg/prepare/signing/signing.go:88-110 | 1, path, hash, size and references between semicolons; the references are the absolute ones, each as often as given, in byte order between commas |
| Signing.FingerprintIff | pkg/prepare/signing/signing.go:88-110 | Without separators in the parts as written, and in a directory that leaves no room for an ambiguous reference or has no comma in the lists, fingerprints are equal iff path, hash, size and the multiset of absolute references are |
| Signing.ReferencesToldApartIff | pkg/prepare/signing/signing.go:91-107 | Any two lists of references without commas that have one fingerprint are the same but for order, iff the store directory leaves no room for an ambiguous reference |
| AbsoluteReferences.AmbiguousCollides | pkg/prepare/signing/signing.go:92-107 | A reference that reads as a sorted list of absolute paths has the text of that list |
| AbsoluteReferences.SomethingAmbiguous | pkg/prepare/signing/signing.go:92-107 | A store directory that is a sorted list of absolute paths with room at its end has such a reference |
| AbsoluteReferences.ListsDiffer | pkg/prepare/signing/signing.go:92-107 | Two different sorted lists with one text betray such a reference |
| Signing.OrderIsForgotten | pkg/prepare/signing/signing.go:100-100 | Reordering references never changes the fingerprint |
| Sorting.SortIs | pkg/prepare/signing/signing.go:100-100 | Sorting keeps each string as often as it occurs and puts them in byte order |
| Signing.CommaInStoreDirCollides | pkg/prepare/signing/signing.go:92-107 | The store directory /a,/a has two different lists of comma-free references with one fingerprint |
| Signing.SignatureStandsForContents | pkg/prepare/signing/signing.go:114-192 | A signature made for one narinfo verifies on another iff they agree on path, hash, size and absolute references |
| Signing.VerifyIff | pkg/prepare/signing/signing.go:164-187 | A signature is valid iff it begins with the key's name and a colon and the rest passes; the errors for a missing colon and another key are told apart |
| Signing.SignatureSurvives | pkg/prepare/signing/signing.go:121-192 | A signature made before printing verifies on what is parsed, pulled, or parsed from either server's text |
| Layer.NewLayerFast | pkg/oci/network.go:138-167 | The outcome for every file hash; a layer has the digest sha256: and two hexadecimal digits for each decoded byte, worth that byte, and the size of the narinfo |
| Layer.LayerMadeIff | pkg/oci/network.go:138-153 | A layer is made iff the file hash is sha256: and 52 base32 digits; each of the errors, and the panic, under its own condition |
| Layer.ShortFileHashPanics | pkg/oci/network.go:142-145 | Any narinfo with the file hash sha256:0 does so through NewLayerFast |
| Layer.LayerSurvives | pkg/oci/network.go:138-167 | A narinfo whose file hash was written from 32 bytes gives, parsed or pulled, the layer whose digest spells these bytes in hexadecimal |
| Layer.DigestsDiffer | pkg/oci/network.go:149-149 | Two such layers have equal digests iff the 32 bytes are equal |
| Secrets.Manager.constructor | internal/secrets/manager.go:107-113 | A session with an empty keychain and a file whose index is right starts with the file's secrets |
| Secrets.Manager.UpdateIndex | internal/secrets/manager.go:253-286 | The index loses exactly the key, or gains exactly its pieces between commas, and is written sorted; no secret changes; with a keychain the file does not |
| Secrets.IndexIsStable | internal/secrets/manager.go:250-253 | There is one sorted text for each set of keys |
| Secrets.Manager.Set | internal/secrets/manager.go:142-165 | The map gains exactly the entry, or nothing on a failed write; with a keychain the file never changes; the index stays right iff the key has no comma and is not empty |
| Secrets.Manager.Get | internal/secrets/manager.go:171-192 | Gives the map's value, from whichever backend, or reports absence |
| Secrets.Manager.List | internal/secrets/manager.go:197-220 | What the index and the file name, each once; with a right index, exactly the keys of the map |
| Secrets.Manager.Delete | internal/secrets/manager.go:226-248 | The map loses exactly the key, and the index stays right |
| Secrets.Manager.Run | internal/secrets/manager.go:142-248 | After any run of writes and deletions the manager is the map they leave; with a keychain, writes never touch the file |
| Secrets.LastOperationDecides | internal/secrets/manager.go:142-248 | A key has the value last written, or none if it was last deleted |
| Secrets.UntouchedIsKept | internal/secrets/manager.go:142-248 | A key no operation touched is as it was |
| Secrets.KeysOfJoin | internal/secrets/manager.go:280-285 | Keys joined and split again are the pieces of the keys |
| Secrets.CommaKeyIsListedInPieces | internal/secrets/manager.go:142-220 | A session in which a secret can be read and is listed under two other keys; the entry _keys_index holds a,b |
| ChangedBuilds.ChangedClass | internal/ci/changed.go:69-80 | In byte order and without repetition, exactly the names that did not evaluate, that the base lacks or that have another derivation there |
| ChangedBuilds.ChangedOutputs | internal/ci/changed.go:87-94 | The same for the three classes, each against its own |
| ChangedBuilds.AllOutputs | internal/ci/changed.go:351-368 | Every output, each class in order; this is also the difference to a commit without any |
| ChangedBuilds.FirstEvaluatable | internal/ci/changed.go:261-279 | The derivations of the first commit of the list that evaluates |
| ChangedBuilds.UsedBaseIff | internal/ci/changed.go:219-279 | The base used is the nearest commit that evaluates among the requested one and the nine above it |
| ChangedBuilds.ResolveChanged | internal/ci/changed.go:385-460 | What a run builds: what changed since the base used, or without one all, nothing or an error as the policy says; whenever it diffs or builds all, no output that failed to evaluate is left out |
| ChangedBuilds.DiffCovers | internal/ci/changed.go:69-94 | A cache that covers the base covers the head once the difference is built |
| ChangedBuilds.CoverageIff | internal/ci/changed.go:251-279 | Every run covers its commit for all derivations iff each base used was run before, or the run built all |
| ChangedBuilds.EveryCommitRun | internal/ci/changed.go:385-460 | If every commit is run in order against its parent and a missing base builds all, every evaluatable commit is covered, although the ancestry searched is bounded |
| ChangedBuilds.WalkBackReachesUnrunCommit | internal/ci/changed.go:258-260 | A history in which walking back reaches a commit that never ran and its outputs are never built |
| ChangedBuilds.ExpandBuilds | internal/ci/discover.go:128-144 | Each entry's expansion, or the entry itself if it has none, each once where it first occurs, and nothing else |

## Left out

- PushRun.RunPushTo: the upstream filter on the requested paths before the loop, the excluded-paths list and progress output are not part of it; uploads run in any order without the limit on how many run at once.
- PushRun.UploadTaskSet: each upload is a success or a failure by path; reading the NAR and narinfo files and the registry calls are not modelled.
- Preparation.PrepareBatch: the order in which workers finish is left to `WorkerPool`; the method fills the results in one order, and no context is cancelled.
- Preparation.CollectReferenceHashes: two references with the same hash keep one path in a map that is never read.
- Upstreams.GroupExistsBatch: a member's reply is the exact one of `BatchQuery.BatchIsExact` or a failure; warnings about failing members are not modelled.
- BatchQuery.BatchIsAnswered: each batch starts with a new cache, as `pkg/prepare/prepare/prepare.go:312` and `internal/ci/run.go:93` make one for a single query; what a cache keeps between batches is `ExistenceCache.ResultsAreFinal`.
- Upstreams.FilterRoots: the checker is a group of upstreams, which never fails as a whole.
- WorkerPool.SuccessIsScheduleIndependent: the work of a job is a success or a failure; a batch whose jobs are cache calls is `BatchQuery`, the group's goroutine for each member is in `Upstreams.GroupExistsBatch`.
- ExistenceCache.StepInv: contexts end at any moment while a call waits for another one's request; a request that a timeout or a cancelled context cuts short is a failed one.
- NarinfoText.Parse: the scanner's limit of 64 KiB a line and read errors are not modelled.
- ServedNarinfo.ServedIff: asks for values without newlines, since a value with one can print a line that is served back unchanged.
- ServedNarinfo.ParseAeroflareMetadata: letter case and white space are those of ASCII.
- ServedNarinfo.ServeNativeNarinfo: registry requests, response headers and routing are not modelled, nor are the Worker's token, challenge and manifest caches.
- Signing.Fingerprint: filepath.Dir is a parameter, and filepath.IsAbs is that of Unix.
- Signing.SignatureStandsForContents: ed25519 and base64 are a parameter that accepts a signature for exactly the text it was made over; parsing key files is not modelled.
- Layer.NewLayerFast: v1.NewHash is not part of the repository; it is taken to accept 64 lower-case hexadecimal digits. The method asks for a file hash of bytes, as Go strings are. SHA-256 and the compressors are not modelled.
- Secrets.Manager.Set: a keychain that fails while the index is rewritten, a keychain that comes or goes between sessions, corrupt files and calls that overlap are not modelled.
- Secrets.Manager.List: a keychain that fails while it is read for the list is not modelled.
- Secrets.Manager.Delete: with a keychain, a failing write of the file after the keychain's deletion is not modelled.
- ChangedBuilds.CoverageIff: builds and pushes of outputs that evaluated succeed; an output that did not evaluate adds nothing.
- ChangedBuilds.ResolveChanged: git and nix are parameters; reading the event payload, systems other than one, rendering installables and log lines are not modelled.
- Store paths, path info and NAR writing: given as functions of the path; parsing of names, nix and the file system are not modelled.
- Pushing a prepared set (`PushTo`) shares its flattening, upload and gate with the chunk loop and is not modelled apart.
- Credentials, cache and upstream specifications, wizards, configuration and output: single-branch logic or presentation.
