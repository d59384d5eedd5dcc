# derpi-fetcher, modelled in Dafny

derpi-fetcher downloads every image that matches a Derpibooru search.

- **Search.** A goroutine, `Search` in `derpi/derpi.go`, walks the result pages. It pushes each raw image record into a channel.
- **Savers.** A pool of savers, `saver` in `main.go`, reads that channel. For each record a saver makes up to six attempts to fetch the image and store it. The file goes under a directory named after the record's artist tags, as `<id><ext>`, with a JSON sidecar `<id>.json` beside it.

This project models the three sequential pieces of that program and proves what they promise.

- **Output paths** (`naming.dfy`, module `Naming`, and `go_strings.dfy`, module `GoStrings`):
  - `ext` (`Naming.Ext`) is path.Ext of the URL, lower-cased, with ".jpeg" renamed ".jpg".
  - `getArtistFromTags` is modelled twice. `Naming.ArtistFromTags` is the loop as written. `Naming.ArtistDir` is the function it is proved equal to.
  - The image path is `Naming.ArtifactPath` and the sidecar path is `Naming.SidecarPath`.
  - The pieces of Go's standard library these call are modelled as pure functions in `GoStrings`: path.Ext, strings.ToLower, strings.SplitN(_, ":", 2)[1], strings.ReplaceAll(_, "/", "_"), strings.Join, sort.Strings and strconv.Itoa.
  - A Go string is a sequence of bytes; here each `char` stands for one byte.
- **The saver's retry loop** (`saver.dfy`, module `ImageSaver`):
  - The filesystem is the set of paths present on disk.
  - What the network and the disk do during attempt `r` of image `i` comes from an oracle `io(i, r)`. It says whether the fetch, the file creation, the copy and the removal of a partly copied file succeed, and whether the sidecar write leaves a file behind. Each attempt starts from the disk the previous attempt left.
  - `Attempt` is one run of the closure. `SaveImage` is the inner retry loop, proved equal to the recursive specification `Retry`. `Saver` is the outer loop over all records.
  - The progress channel `counter` is the sequence `ticks` of the positions of the images that were written.
- **Search** (`derpi.dfy`, module `Derpi`):
  - The server is a finite stream `rs` of responses. `rs[j]` is what the j-th request gets back: a transport failure, a body that does not decode, or a page of records.
  - The channel is an event log of every request, with its page number, and every record sent, in order.
  - Cancellation is the number of ctx.Done() checks that pass before the context reads as done. A check is made before each request and before each send.
  - `Search` is proved to produce exactly `Cut(Full(rs), ctx)`. `Full(rs)` is the uncancelled run up to the first response that ends it. `Cut` keeps the events before the first check that sees cancellation. The deferred `close(ch)` runs exactly once.

## Model

| member | source | states |
|---|---|---|
| Naming.ExtShape | main.go:35-41 | ext returns "" exactly when the last '/'-separated element of the URL has no '.'. Otherwise it returns a '.' followed by neither '.' nor '/'. The result never holds a '/' or an upper-case ASCII letter, and is never ".jpeg". |
| Naming.ExtLastElement | main.go:36 | only the last '/'-separated element of the URL decides its extension |
| Naming.ExtIdempotent | main.go:35-41 | applying ext to its own output changes nothing |
| Naming.ExtJpegAlias | main.go:36-39 | a final ".jpeg" in any letter case comes out as ".jpg" |
| GoStrings.PathExtShape | main.go:36 | path.Ext returns a suffix of the last element. It is "" exactly when that element has no '.', and otherwise a '.' followed by neither '.' nor '/'. |
| GoStrings.PathExtOfSuffix | main.go:36 | a URL ending in '.' followed by neither '.' nor '/' has exactly that ending as its extension |
| GoStrings.PathExtLastElement | main.go:36 | path.Ext of q + "/" + s equals path.Ext of s when s has no '/' |
| GoStrings.LowerChar | main.go:36 | lower-casing maps each of 'A'..'Z' to the letter at the same position in 'a'..'z' and keeps every other byte, so no upper-case ASCII letter remains |
| Naming.ArtistFromTags | main.go:53-69 | the loop that collects the names, then sorts, joins and truncates them, returns ArtistDir(tags) |
| Naming.ArtistDirShape | main.go:60-68 | With no artist names the directory is "unknown". Otherwise it is at most 200 bytes and a prefix of the "-&-"-join of the sorted names, and equals that join when the join fits. It never contains a '/'. |
| Naming.ArtistNameStripsPrefix | main.go:56-57 | an artist name is the tag without its leading "artist:" (later colons kept), with every '/' replaced by '_' |
| GoStrings.AfterFirstColon | main.go:57 | the result is the part of the tag after its first ':' |
| GoStrings.ReplaceSlashes | main.go:57 | same length, no '/', every '/' becomes '_' and every other byte is kept |
| Naming.ArtistNamesEmpty | main.go:55-59 | there is no artist name exactly when no tag starts with "artist:" |
| Naming.NoArtistIsUnknown | main.go:55-68 | without artist tags the directory is "unknown" |
| Naming.ArtistNamesMembers | main.go:55-59 | a name is collected exactly when some artist tag yields it |
| Naming.ArtistNamesKeepDuplicates | main.go:54-59 | a repeated artist tag contributes its name once per occurrence; duplicates are not removed |
| Naming.ArtistNamesPermutation | main.go:54-59 | the multiset of names depends only on the multiset of tags |
| Naming.ArtistDirPermutation | main.go:54-62 | the directory is the same for every ordering of the tags |
| GoStrings.SortStrings | main.go:61 | sort.Strings yields a sorted permutation of its input |
| GoStrings.SortedUnique | main.go:61 | two sorted sequences with the same elements are equal |
| GoStrings.SortPermutationInvariant | main.go:61 | sorting any two orderings of the same names gives the same sequence |
| GoStrings.JoinAvoids | main.go:62 | a byte that is in no part and not in the separator is not in the join |
| GoStrings.Itoa | main.go:85 | strconv.Itoa yields a non-empty string of digits and '-' |
| GoStrings.ItoaRoundTrip | main.go:85 | parsing the decimal string back gives the number |
| GoStrings.ItoaInjective | main.go:85 | distinct numbers give distinct decimal strings |
| Naming.ArtifactPathInjective | main.go:85 | in one directory, distinct ids give distinct image paths, whatever their URLs |
| Naming.SidecarBesideArtifact | main.go:110 | The sidecar path and the image path share the stem dir + "/" + itoa(id). They coincide exactly when the URL's extension is ".json". |
| ImageSaver.Attempt | main.go:76-116 | An attempt succeeds exactly when the record decodes, nothing is at its image path, and the fetch, creation and copy succeed. A success adds the image file, and also the sidecar whenever ioutil.WriteFile leaves a file there, which a write that fails after opening the file also does. A failure leaves the files on disk as they were, except that a partly copied file stays at the image path when its os.Remove fails. |
| ImageSaver.SaveImage | main.go:73-126 | the retry loop's disk, attempt count and saved flag are those of Retry from retry 0, each attempt running on the disk the previous one left |
| ImageSaver.RetryShape | main.go:73-123 | From retry r the outcome is decided by the first attempt that changes the disk. If it succeeds, the loop stops there with the files stored. If it leaves a partial file, that file stays, every later attempt stops at os.Stat, and all six attempts are used. When no attempt changes the disk, all six fail and the disk is unchanged. |
| ImageSaver.RetryMeetsImageStep | main.go:73-123 | the loop's outcome meets the non-recursive description ImageStep |
| ImageSaver.ImageStepIsRetry | main.go:73-123 | every outcome that meets ImageStep is the loop's outcome |
| ImageSaver.ImageStepFacts | main.go:73-123 | An image gets between one and six attempts. A saved image was written on a disk that lacked its file. An unsaved one used all six attempts and left the disk unchanged or added only a partial file at its image path. |
| ImageSaver.PartialFileStays | main.go:86-108 | when the first attempt that changes the disk leaves a partly copied file (copy and os.Remove both fail), the image is never saved: later attempts stop at os.Stat whatever they would do, and the partial file stays |
| ImageSaver.SavedIffSomeAttemptSucceeds | main.go:74-123 | an image is saved exactly when one of its six attempts would succeed on the disk it found, with no earlier attempt having left a partial file |
| ImageSaver.Saver | main.go:71-128 | the outer loop runs every record through its own retry loop, starting from the disk the previous one left, and records one tick per saved image, in order |
| ImageSaver.EveryImageAttempted | main.go:72-126 | Every record gets between one and six attempts, whatever happened to the records before it. It sends a tick exactly when one of its attempts would succeed, before any attempt left a partial file. |
| ImageSaver.RunKeepsFiles | main.go:98-108 | no file already on disk is ever removed: os.Remove only touches the file the failing attempt itself created |
| ImageSaver.TakenPathNotCounted | main.go:86-88 | a record whose image path is taken when its turn comes (for instance by a sidecar an earlier record with the same directory and id left, when its URL extension is ".json") uses all six attempts, sends no tick and changes nothing |
| ImageSaver.PresentImageNotCounted | main.go:86-88 | an image whose file is already on disk uses all six attempts, sends no tick and changes nothing |
| ImageSaver.TicksAreNewFiles | main.go:109-115 | Every tick stands for an image file that was not on disk at the start and is there at the end. No two ticks stand for the same file. |
| ImageSaver.NewFilesFromRecords | main.go:98-112 | Every path that is on disk at the end but was not at the start is the image file of some record, or the sidecar of a record that sent a tick. So the count can fall short of the new image files only by partial files. |
| Derpi.Search | derpi/derpi.go:47-95 | The events are the uncancelled run cut at the first ctx.Done() check that sees cancellation. The channel is closed exactly once. |
| Derpi.SendItems | derpi/derpi.go:84-91 | Without cancellation every record of the page is sent, in order. Otherwise a prefix of them is sent, up to the first check that sees cancellation. |
| Derpi.RequestedPages | derpi/derpi.go:53-83 | request j asks for page 1 + the number of non-empty pages before it |
| Derpi.PageProgression | derpi/derpi.go:53-83 | The first request is for page 1. After a non-empty page the next request is for the next page. After anything else, including a retried decode failure, the same page is requested again. |
| Derpi.SentItems | derpi/derpi.go:83-91 | without cancellation the records sent are those of all pages, in order, each once |
| Derpi.SentUnderCancellation | derpi/derpi.go:56-91 | Under any context the records sent are a prefix of those of the pages fetched. They are all of them when the context is never cancelled. |
| Derpi.StopReasons | derpi/derpi.go:61-82 | The run ends at a transport failure, at an empty page, or at the sixth decode failure in a row. No earlier response makes a streak above five. |
| Derpi.SixthDecodeFailureStops | derpi/derpi.go:68-79 | six decode failures in a row end the run at the latest with the sixth |
| Derpi.ThreePagesThenEmpty | derpi/derpi.go:53-91 | pages of 50, 50 and 20 records then an empty page give four requests, for pages 1 to 4, and 120 records |

## Left out

- Goroutines and channels are not modelled: `asyncSaver`, `manySavers`, the buffers of capacity 10 and the counting loop of `main`. The channel `Search` fills is an event log, and the progress channel is the sequence of ticks. One saver handles all records, in order.
- HTTP, JSON decoding and the filesystem calls are replaced by inputs:
  - A record either decodes or does not.
  - The outcome of each attempt's fetch, file creation, copy and sidecar write comes from the oracle.
  - The search responses come from the stream `rs`.
  - The URL of a record (`Representations.Full`) is the field `url` of `ImageData`.
- File contents are not modelled, only which paths are present. So when a URL's extension is ".json", the sidecar overwriting the image is not visible (`Naming.SidecarBesideArtifact` shows the two paths then coincide).
- os.Stat reads as "the path is present"; other Stat errors are not distinguished.
- The ignored result of os.Mkdir is folded into whether the file can be created.
- Directories are not tracked: the disk is the set of file paths, so the directory that os.Mkdir creates, even for an attempt that then fails, is not recorded. No modelled behaviour depends on it. os.Stat is only asked about file paths, and a directory name never contains '/' (`Naming.ArtistDirShape`), while every file path does.
- `time.Sleep` between retries, all logging, `getConfig` and the every-100 progress message are not modelled.
- `urlForQuery` is not part of this model. It wraps net/url's query encoding, which lies outside the repository.
- The guard `counter != nil` is not modelled: the only caller passes a channel, so a success always sends a tick.
- GoStrings.ToLowerAscii: lower-cases ASCII letters only, where Go's strings.ToLower also maps other Unicode letters. A byte stands for a char, so multi-byte characters are not decoded, and truncation to 200 bytes may split one, as in Go.
- Derpi.Search: requires `Stops(rs)`, i.e. that some response in the stream ends the run (a transport failure, an empty page, or a sixth decode failure in a row). A server that keeps answering forever would make the goroutine run forever, and that cannot be a terminating Dafny method.
- Derpi.Search: the number of requests made is not a separate output. It is the number of `Request` events in the log.
- Per-attempt environments do not depend on the disk or on earlier attempts beyond what the oracle's index `(i, r)` encodes.
