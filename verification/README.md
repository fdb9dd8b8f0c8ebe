# gitd — a Dafny model of the Smart-HTTP git gateway

gitd serves git repositories over git's "Smart HTTP" transport. It matches
each request path against three patterns (`…/info/refs`, `…/git-upload-pack`,
`…/git-receive-pack`), checks the HTTP method, and sets the status and the
Content-Type. Ref discovery also writes a pkt-line preamble. The handler then
starts `git-upload-pack` or `git-receive-pack` in the repository's directory.
This project models that core and proves properties of it:

- `pktline.dfy` (module `PktLine`) — `packetWrite` and `packetFlush`. The
  length header is the lowercase hex of the payload length plus four. It is
  zero-padded to a multiple of four digits. `ParseFrame` is an independent
  reader of four-digit frames, used as the partner of the round-trip lemmas.
- `filepath.dfy` (module `FilePath`) — the lexical parts of Go's
  `path/filepath` that the gateway calls: `Clean`, `Join` and `ToSlash`. The
  operating system is a parameter (`windows`). `Clean` is modelled by its
  documented rules, over a path's elements.
- `sanitizer.dfy` (module `Sanitizer`) — `sanitize`. It strips the drive
  label on Windows, then cleans, converts to '/' and strips leading `"../"`
  tokens. `Sanitize` is the imperative version, with the stripping loop. It is
  proved equal to the function `SanitizedPath`, on which the lemmas are stated.
- `dispatcher.dfy` (module `Dispatcher`) — the catch-all handler and the
  three operation handlers. A handler's effect on the response writer is a
  `Response`: the status, the Content-Type it adds, the bytes it writes before
  git's output, and the git process it starts (an `Invocation`).
- `wrappers.dfy` — `Option`.

The same `packetWrite`, `packetFlush` and `sanitize` also appear, unchanged,
in `helper.go` (lines 45-58 and 62-74). The rows below cite the copies in
`gitd.go`, and every statement holds for both.

Where `sanitize` runs: the handlers never sanitize the repository path
they capture. They join it to the repositories root first (`filepath.Join`,
gitd.go:113, 131 and 149). `sanitize` runs only inside `runCommand`, on that
joined path (gitd.go:177). On Unix with an absolute root, the joined path is
already clean and absolute, so `sanitize` changes nothing there
(`ProcessDirectory`). A repository path of `"/.."` therefore reaches the
root's parent (`JoinLeavesRoot`).

Ref discovery's Content-Type is `application/x-<service>-advertisement`
(gitd.go:158).

The regexp capture follows Go's `regexp` package. In `(.*?)<suffix>$` the dot
does not match a newline. So the captured repository path is the text between
the last newline and the suffix, and the match needs the path to end with the
suffix. Go iterates a map in an unspecified order. `Dispatch` therefore takes
the route order as a parameter, and `DispatchOrderIrrelevant` proves the
response is the same for every order.

## Model

| member | source | states |
|---|---|---|
| PktLine.FormatHex | gitd.go:200 | the hex digits of n denote n, there is at least one, and there is no leading zero: n < 16^w for width w, and 16^(w-1) <= n unless the result is one digit (so 0 is "0") |
| PktLine.Header | gitd.go:200-205 | the header for length n is lowercase hex of value n, a whole number of four-digit groups, and the fewest groups that hold n: 16^(w-4) <= n < 16^w |
| PktLine.PacketWrite | gitd.go:199-208 | the payload follows the header unchanged; the header is lowercase hex whose value is the payload length plus 4; its width is a multiple of four and the smallest such width that holds the value |
| PktLine.PacketFlush | gitd.go:210-212 | the flush packet is four hex digits of value 0 |
| PktLine.ParseFrame | gitd.go:199-212 | a four-digit reader: a frame it accepts is header, payload and rest, in that order, and the header's value is the payload length plus 4 |
| PktLine.PacketWriteRoundTrip | gitd.go:199-208 | a packet shorter than 65536 bytes reads back as its payload, and whatever follows it is left as the rest |
| PktLine.PacketFlushRoundTrip | gitd.go:210-212 | the flush packet reads back as a flush frame |
| PktLine.PacketWriteHeaderWidth | gitd.go:200-205 | the header is exactly four digits if and only if the packet length is below 65536 |
| PktLine.PacketWriteIsNotFlush | gitd.go:199-212 | no data packet, of any length, begins with "0000" |
| PktLine.PacketThenFlush | gitd.go:161-162 | a data packet followed by a flush reads back as exactly those two frames |
| FilePath.CleanSegments | gitd.go:222 | the elements Clean keeps are non-empty, not ".", free of separators; ".." only in a leading run, and none below the root |
| FilePath.Clean | gitd.go:222 | the result is never empty, and it is absolute if and only if the input is |
| FilePath.CleanIdempotent | gitd.go:222 | cleaning a cleaned path changes nothing |
| FilePath.CleanRender | gitd.go:222 | a path written from canonical elements is its own Clean |
| FilePath.SplitJoin | gitd.go:222 | splitting at separators recovers the elements that were joined |
| FilePath.ResolveCanonical | gitd.go:222 | Clean's element rules leave canonical elements unchanged |
| FilePath.Join | gitd.go:113 | the result is empty exactly when both elements are; it is absolute when the root is |
| FilePath.JoinIsClean | gitd.go:113 | Join's result is already clean |
| FilePath.JoinBelowRoot | gitd.go:113 | joining a clean path free of ".." to a clean absolute root yields the root's elements followed by the path's |
| FilePath.JoinParent | gitd.go:113 | joining ".." to a clean absolute root gives the root less its last element |
| FilePath.ToSlash | gitd.go:223 | on Windows every '\' becomes '/' and every other character is kept, so no '\' is left; elsewhere nothing changes |
| FilePath.ToSlashClean | gitd.go:222-223 | after ToSlash, a cleaned path is written with '/' on every system |
| Sanitizer.StripParents | gitd.go:224-226 | the result does not begin with "../" and is no longer than the input |
| Sanitizer.StripParentsRemoves | gitd.go:224-226 | what the loop removes is whole "../" tokens and nothing else: input == k copies of "../" + result |
| Sanitizer.StripDrive | gitd.go:218-220 | the name less a leading drive label: a tail of the name, two characters shorter exactly when on Windows its second character is ':', and the whole name otherwise |
| Sanitizer.SanitizedPath | gitd.go:216-228 | what sanitize returns: the cleaned, '/'-written name less whole leading "../" tokens; it does not begin with "../" |
| Sanitizer.Sanitize | gitd.go:216-228 | the loop computes SanitizedPath; the result does not begin with "../" and is the cleaned path less whole leading "../" tokens |
| Sanitizer.DriveLabelDropped | gitd.go:218-220 | on Windows a leading "X:" is dropped once, and whatever follows it, "D:x" included, goes to Clean as it is |
| Sanitizer.NoDriveLabelKept | gitd.go:218-222 | on Windows a name whose second character is not ':' goes to Clean unchanged |
| Sanitizer.NoDriveLabelOffWindows | gitd.go:218-222 | off Windows the name goes to Clean unchanged |
| Sanitizer.DropParentsShape | gitd.go:222-226 | dropping the leading ".." run keeps the elements canonical and leaves no "..", except a lone ".."; absolute paths are unchanged |
| Sanitizer.StripRender | gitd.go:223-226 | stripping "../" from a relative clean path drops exactly its leading ".." elements |
| Sanitizer.SanitizedShape | gitd.go:216-228 | the result is written with '/' from canonical elements that hold no ".." unless they are exactly [".."]; it is absolute exactly when the name after the drive label is |
| Sanitizer.SanitizedElements | gitd.go:216-228 | the result is non-empty, starts with '/' exactly for absolute input, and has no empty, "." or (unless it is "..") ".." element |
| Sanitizer.SanitizeIdempotent | gitd.go:216-228 | on Unix, sanitizing a sanitized path changes nothing |
| Sanitizer.CleanThenStrip | gitd.go:222-226 | cleaning comes before stripping: "a/../../" before a ".."-free relative path leaves just that path |
| Sanitizer.CleanThenStripExample | gitd.go:222-226 | "a/../../etc/passwd" becomes "etc/passwd" |
| Sanitizer.ParentSurvives | gitd.go:224-226 | ".." is returned as ".." |
| Sanitizer.SanitizedParentLeavesRoot | gitd.go:224-226 | "../.." sanitizes to "..", and joined to "/srv" that gives "/" |
| Sanitizer.SafeSanitizedPath | gitd.go:214-228 | the corrected result never begins with "../" and is never ".." |
| Sanitizer.SafeShape | gitd.go:214-228 | the corrected result is written from canonical elements with no ".." at all |
| Sanitizer.SafeJoinStaysBelowRoot | gitd.go:214-228 | on Unix, the corrected result joined to a clean absolute root is the root's elements followed by elements none of which is "..": it stays below the root |
| Dispatcher.AfterLastNewline | gitd.go:77-79 | the longest newline-free tail of the text: a suffix of it with no '\n', either all of it or preceded by '\n' |
| Dispatcher.SubmatchBefore | gitd.go:84 | a pattern matches if and only if the path ends with its suffix |
| Dispatcher.SubmatchShape | gitd.go:77-85 | the capture is the leftmost match: the path ends with capture + suffix, the capture has no newline and starts the path or follows a newline |
| Dispatcher.FirstMatch | gitd.go:83-88 | a route found is in the order, and its capture is that route's capture |
| Dispatcher.FirstMatchFinds | gitd.go:83-91 | the search fails only when no route in the order matches |
| Dispatcher.RoutesExclusive | gitd.go:76-80 | no path matches two of the three patterns |
| Dispatcher.MatchedRoute | gitd.go:83-88 | in any order, the route whose pattern matches is the one chosen, with its capture |
| Dispatcher.DispatchOrderIrrelevant | gitd.go:76-92 | the response is the same for every order in which the route map is iterated |
| Dispatcher.UploadPack | gitd.go:106-121 | git-upload-pack runs if and only if the method is POST; otherwise 405 "Method Not Allowed" and nothing else |
| Dispatcher.ReceivePack | gitd.go:124-139 | git-receive-pack runs if and only if the method is POST; otherwise 405 "Method Not Allowed" and nothing else |
| Dispatcher.InfoRefs | gitd.go:141-166 | git runs if and only if the method is GET and the service is one of the two; a non-GET is 405, an unknown service 400 |
| Dispatcher.Dispatch | gitd.go:82-92 | for any order of the routes: a listed route whose pattern matches answers, with its own capture; when none matches, 400 "Bad Request" and nothing runs |
| Dispatcher.Handle | gitd.go:82-92 | the status is 200, 400 or 405; a process starts exactly on 200; an error response has no content type and body "Bad Request" or "Method Not Allowed" |
| Dispatcher.DispatchFacts | gitd.go:82-92 | the same three facts hold for every route order |
| Dispatcher.UnmatchedIsBadRequest | gitd.go:90-91 | a path no pattern matches gets 400 "Bad Request" and nothing runs |
| Dispatcher.CapturedRepoPath | gitd.go:84-86 | for a path without newlines, the repository path handed on is the path less its suffix |
| Dispatcher.MethodNotAllowedExactly | gitd.go:82-146 | 405 is the answer if and only if the path ends with a pattern's suffix and the method is not the one that handler wants |
| Dispatcher.PackWrongMethod | gitd.go:107-111 | a non-POST to a pack route gets exactly 405 "Method Not Allowed" |
| Dispatcher.PackPost | gitd.go:112-120 | a POST to a pack route commits 200 with application/x-<cmd>-result and runs <cmd> --stateless-rpc . in the root joined with the captured path |
| Dispatcher.InfoRefsDecision | gitd.go:141-166 | ref discovery checks the method first (405), then the service (400), and otherwise commits 200 with the advertisement type, writes the preamble and runs git --stateless-rpc --advertise-refs . |
| Dispatcher.Preamble | gitd.go:161-162 | the bytes before git's advertisement read back as the frame "# service=<cmd>\n" and then a flush, for any service name short enough for a four-digit header |
| Dispatcher.PreambleFrames | gitd.go:161-162 | the preamble reads back as the frame "# service=<cmd>\n" followed by a flush |
| Dispatcher.ProcessDirectory | gitd.go:177 | on Unix with an absolute root, sanitize leaves the joined directory unchanged |
| Dispatcher.JoinLeavesRoot | gitd.go:113 | the repository path "/.." joined to "/r" gives "/", and sanitize keeps it "/" |

## Left out

- `runCommand`'s process I/O (pipes, copying the body in and the output out, waiting) is not modelled. A started process is recorded as an `Invocation`: the command, its arguments and the directory handed to `runCommand`.
- `checkGitVersion`, `init`, `main`'s flag and config parsing, logging and the server start-up are not part of this model. The routing closure at gitd.go:82-92 is modelled.
- gitd.go has no decompression of request bodies, so there is none to model.
- net/http's behaviour is not modelled: ServeMux cleaning paths and redirecting before the handler runs, query parsing, and the content type it sniffs when a handler sets none. `Request.service` is the value `Query().Get("service")` returns, "" when absent.
- FilePath.Clean: Windows volume names (`C:` kept after the drive label check, UNC `\\host\share`) are not modelled. On Windows both '/' and '\' separate and '\' is written.
- FilePath.Join: only the two-element form the handlers use is modelled. Go's Windows join keeps a bare drive element relative (`Join("C:", "x")` is `C:x`); the model writes `C:\x`, since it has no volume names.
- Strings are sequences of characters, not bytes. The drive-label test and the slices in `sanitize` index bytes in Go, so they agree only for ASCII prefixes. PktLine.PacketWrite counts the payload in characters where Go's `len(str)` counts bytes (gitd.go:200), so its header agrees with Go only for ASCII payloads, which the service line always is.
- PktLine.ParseFrame reads four-digit headers only, as git's pkt-line readers do. `PacketWriteRoundTrip` is therefore stated for packets shorter than 65536 bytes. Longer payloads get a wider header (`PacketWriteHeaderWidth`); the gateway never writes one.
- PktLine.PacketWrite: the length is not bounded to 64 bits (`int64` in Go). No string reaches that bound.
- Headers being sent before the body is a property of net/http's writer, not of these handlers; the `Response` record has no time order.

## Findings

| source | as written | input that shows it | evidently intended | confidence | as-written member | corrected member |
|---|---|---|---|---|---|---|
| gitd.go:224-226 | the loop strips only "../" with its slash, and Clean writes a path made only of ".." elements with a final bare "..", so sanitize returns ".." | "../.." sanitizes to "..", and Join("/srv", "..") is "/" | no upward traversal survives sanitize, so joining the result to a root stays below the root | medium, not executed | Sanitizer.SanitizedParentLeavesRoot | Sanitizer.SafeSanitizedPath |

The corrected `SafeSanitizedPath` also turns a remaining bare ".." into ".".
`SafeJoinStaysBelowRoot` proves the containment property for it. The handlers
keep the code as written; as noted above, they never sanitize the repository
path before joining it.
