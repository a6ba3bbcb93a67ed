# efs: the reply-decoding core of a FUSE filesystem backed by an Erlang node

`hello.c` mounts a filesystem whose operations are answered by a remote
Erlang node. Each of its four FUSE callbacks (`hello_getattr`,
`hello_readdir`, `hello_open`, `hello_read`) sends a request term over an
erl_interface RPC connection. It then matches the reply term against the
shapes it expects, using `erl_match` on patterns built by `erl_format`. The
matched fields become a `struct stat`, a sequence of directory-fill calls, a
file handle or copied bytes. Any other reply becomes a negative POSIX errno.

This project models that core in Dafny:

- `erl_term.dfy`, module `ErlTerm`: the decoded Erlang term (atom, C-int
  integer, binary, proper list, tuple, pid) and Erlang strings as `~s` builds
  them.
- `matcher.dfy`, module `Matcher`: a pattern matcher standing in for
  `erl_match`/`erl_var_content`. Patterns are holes, constants and tuples of
  patterns. A hole used twice must bind equal sub-terms. The matcher is proved
  sound and complete against substitution: a match succeeds exactly when
  filling the pattern's holes can give the term.
- `requests.dfy`, module `Requests`: the `gen_server:call(nefs, Msg)` requests
  of getattr, readdir and open, with a decoder (how the server reads them) and
  the round trip between the two.
- `handlers.dfy`, module `Handlers`: the four callbacks. Each callback has a
  pure function giving its result for every reply term, defined through the
  matcher as the C code is. The function's contract restates that result
  directly on the shape of the term. The callbacks themselves are
  imperative:
  - `GetAttr` zeroes and then writes a `StatBuf` object;
  - `ReadDir` walks the listing in a `while` loop that appends fill calls;
  - `Open` writes the handle slot of a `FileInfo` object;
  - `Read` copies into an `array<byte>`.

  Each of these methods is proved equal to its function.

Constants: `ENOENT` = 2 and `EACCES` = 13. `S_IFDIR` = 0o040000,
`S_IFREG` = 0o100000, `S_IFMT` = 0o170000. C types are taken at their Linux
x86-64 widths: `mode_t` is unsigned 32-bit (a `bv32`), `nlink_t` is unsigned
64-bit and `off_t` is signed 64-bit. The integer a reply carries is a C `int`,
so `Mode` is converted to `mode_t` modulo 2^32 and `Nlink` to `nlink_t`
modulo 2^64. `Size` fits `off_t` unchanged.

The model follows the code where it departs from what the system evidently
intends:

- readdir is meant to fill "." and ".." once per call. The code fills them once
  per listed element, and for `{ok,[]}` it fills nothing at all.
- read is meant to copy no more than the binary holds. The code copies exactly
  `size` bytes from the binary.

Both are listed under Findings, each with a corrected variant.

## Model

| member | source | states |
|---|---|---|
| ErlTerm.StringRoundTrip | hello.c:30 | the Erlang string `~s` makes of a path decodes back to that path |
| ErlTerm.StringTermInjective | hello.c:68 | two different paths never give the same string term |
| Requests.Encode | hello.c:30 | every filesystem request is a `gen_server:call` whose argument list is the server name `nefs` followed by one message (the same at lines 68 and 101) |
| Requests.Message | hello.c:101 | the message is a tuple whose first element is the operation's tag atom and whose second is the path string; it has a third element exactly for open, and that element is the flags |
| Requests.DecodeEncode | hello.c:68 | the server reads back from every call exactly the request the handler made (operation, path, open flags) |
| Requests.EncodeInjective | hello.c:101 | different requests never produce the same call |
| Matcher.Match | hello.c:36 | `erl_match` (also at lines 45, 70, 104, 111 and 125): a successful match keeps every binding already made |
| Matcher.MatchKeys | hello.c:36 | a successful match binds exactly the pattern's holes on top of the bindings already made |
| Matcher.MatchBindsHoles | hello.c:37-38 | after a successful match on a fresh pattern, `erl_var_content` finds a sub-term for every hole of the pattern and for no other name |
| Matcher.MatchSound | hello.c:36 | a successful match only adds bindings, and filling the pattern's holes from them gives back the matched term |
| Matcher.MatchComplete | hello.c:45 | if some filling of the holes that agrees with the bindings so far gives the term, the match succeeds and agrees with that filling |
| Matcher.MatchFreshIff | hello.c:104 | `erl_match` on a fresh pattern succeeds exactly when the term is an instance of the pattern |
| Handlers.MatchDirectory | hello.c:31-38 | `{directory,Mode,Nlink}` matches exactly the three-tuples tagged `directory` and binds Mode and Nlink to their second and third elements |
| Handlers.MatchFile | hello.c:45-48 | `{file,Mode,Nlink,Size}` matches exactly the four-tuples tagged `file` and binds the three fields in order |
| Handlers.MatchOk | hello.c:69-71 | `{ok,X}` matches exactly the pairs tagged `ok` and binds X to the second element |
| Handlers.MatchAccess | hello.c:103 | `{error,access}` matches that one term and nothing else |
| Handlers.ModeT | hello.c:40 | the reply's `int` converted to the unsigned 32-bit `mode_t` (also at line 51): unchanged when non-negative, wrapped modulo 2^32 when negative |
| Handlers.TypedMode | hello.c:40 | `S_IFDIR \| Mode` (and `S_IFREG \| Mode`) keeps the backend's permission bits, sets the file-type bits, and has exactly that file type when the backend sent no type bits |
| Handlers.NlinkT | hello.c:41 | the link count is the reply's integer converted to the unsigned 64-bit `nlink_t`: unchanged when non-negative, wrapped modulo 2^64 when negative |
| Handlers.GetAttrReply | hello.c:28-62 | result 0 exactly for a directory or file reply with integer fields; directory gives mode `S_IFDIR \| Mode` and link count Nlink; file gives mode `S_IFREG \| Mode`, Nlink and Size; everything else is -ENOENT with the record entirely zero |
| Handlers.DirectorySizeZero | hello.c:34-41 | a directory's size is the 0 left by the memset and its mode carries `S_IFDIR` |
| Handlers.StatBuf.Zero | hello.c:34 | after the memset every field of the record is zero |
| Handlers.GetAttr | hello.c:28-62 | the returned value and the whole stat record afterwards are those of `GetAttrReply` |
| Handlers.FirstNonList | hello.c:80-84 | the index where the walk stops: every element before it is a list, and the element at it (if any) is not |
| Handlers.TriplesAt | hello.c:73-81 | the fill calls for n names are 3n entries: ".", ".." and the i-th name at positions 3i, 3i+1, 3i+2 |
| Handlers.ReadDirReply | hello.c:64-96 | non-`{ok,List}` replies fill nothing and give -ENOENT; result 0 exactly when every element is a list, and then the fills are the triples of the whole listing; otherwise there is a non-list element k with every element before it a list (the first non-list), and the fills are the triples before k followed by ".", ".." |
| Handlers.ReadDirEntriesAt | hello.c:73-87 | on success the fills are 3·\|Listing\| entries, in listing order, ".", ".." and the name for each element |
| Handlers.ReadDirStopsAt | hello.c:80-85 | when element k is the first non-list, readdir gives -ENOENT with the triples before k, then ".", "..", and nothing after: 3k+2 fills |
| Handlers.ReadDir | hello.c:64-96 | the loop's return value and fill calls are those of `ReadDirReply` |
| Handlers.WithoutDotsTriples | hello.c:79-81 | dropping "." and ".." from the as-written fills leaves exactly the listed names in order |
| Handlers.TriplesDotCount | hello.c:76 | as written, "." is filled once per listed element |
| Handlers.ReadDirDotsPerElement | hello.c:73-77 | `{ok,[]}` fills nothing, not even "." and ".."; `{ok,["a","b"]}` fills "." and ".." twice |
| Handlers.ReadDirFixedReply | hello.c:73-77 | corrected readdir: the same result code; for a list reply "." and ".." once, first, then the as-written names; "." exactly once; on success ".", ".." and every name |
| Handlers.ReadDirFixed | hello.c:64-96 | the corrected loop's return value and fill calls are those of `ReadDirFixedReply` |
| Handlers.OpenReply | hello.c:104-115 | open succeeds exactly for `{ok,Pid}` with a pid and keeps that pid; it is denied exactly for `{error,access}`; everything else (including `{ok,X}` with a non-pid X) is not found |
| Handlers.OpenErrors | hello.c:111-115 | -EACCES exactly for `{error,access}`; -ENOENT exactly for replies that are neither that nor `{ok,Pid}` |
| Handlers.Open | hello.c:98-117 | returns `OpenResult(OpenReply(reply))`; the handle slot holds the pid after a successful open and is untouched otherwise; the flags are untouched |
| Handlers.ReadReply | hello.c:124-128 | the data is present exactly for `{ok,Data}` with a binary Data, and is that binary's bytes |
| Handlers.CopiedBytes | hello.c:130 | the corrected copy is a prefix of the binary of length `min(size, \|Data\|)`, and equals the source's copy wherever that stays inside the binary |
| Handlers.ReadOverRead | hello.c:130 | `{ok,<<>>}` read with size 1 makes the source's copy run past the binary, while the corrected copy copies nothing |
| Handlers.Read | hello.c:119-134 | returns the binary's length (not `size`) for `{ok,Binary}` and 0 otherwise; on success the first `min(size, \|Data\|)` bytes of `buf` are the binary's and the rest are unchanged; otherwise `buf` is unchanged |

## Left out

- `main` (hello.c:143-161) is not modelled: the connection handshake, the node name and cookie, the ping call and `fuse_main`. It is process startup and I/O.
- `erl_rpc`, `FERL_DATA` and `fuse_get_context` are not modelled. They are network and foreign calls. Each handler takes the reply term as its input. `Requests` gives the request terms as values.
- The read request (hello.c:123) is not modelled. Its format `[~s,{bof,~i},~i]` gets `offset` for `~s` and `size` for the first `~i`, and no argument for the second `~i`. The term it builds is undefined. It names neither the path nor the open file.
- `erl_format`'s parsing of pattern strings is not modelled. The patterns are written out as `Matcher.Pattern` values.
- The `ERL_BIN_PTR` cast that hands a list element to `filler` as a C string (hello.c:81) is not modelled. A fill call carries the list element itself (`Name(elem)`).
- Terms are never freed in the source. Memory lifetime is not modelled.
- Integer terms are C `int`s only, erl_interface's `ERL_INTEGER` kind. The other integer kinds (unsigned, long long, big) are not represented.
- Lists are proper lists only. An improper tail, which `ERL_CONS_TAIL` would hand back to the loop, is not represented.
- `fi->fh` is a 64-bit integer that holds the address of the pid term. The model stores the pid term itself, as `Some(pid)`.
- The `fuse_operations` table (hello.c:136-141) is not modelled, nor is serialising concurrent callers over the one connection. Both are kernel-bridge plumbing and concurrency.
- Handlers.Read: copies `min(size, |Data|)` bytes instead of the source's `size` bytes. The source's copy reads past the binary when it is shorter (see Findings). The returned count is an unbounded integer; binaries longer than `INT_MAX` are not considered.
- Handlers.NlinkT: `mode_t`, `nlink_t` and `off_t` are taken at their Linux x86-64 widths. On macOS `mode_t` and `nlink_t` are both 16 bits wide, so there `Mode` and `Nlink` wrap modulo 2^16 and the model's modulo-2^32 and modulo-2^64 conversions (`Handlers.ModeT`, `Handlers.NlinkT`) do not apply.

## Findings

| source | as written | input that shows it | evidently intended | confidence | as-written member | corrected member |
|---|---|---|---|---|---|---|
| hello.c:73-77 | "." and ".." are filled inside the loop, once per listed element | `{ok,[]}` fills no entries; `{ok,["a","b"]}` fills ".", "..", "a", ".", "..", "b" | ".", ".." filled once before the names | high (not executed) | Handlers.ReadDirDotsPerElement | Handlers.ReadDirFixed |
| hello.c:130 | `memcpy(buf, data, size)` copies `size` bytes whatever the binary's length | `{ok,<<>>}` with `size` = 1 reads one byte past the empty binary | copy `min(size, \|Data\|)` bytes | high (not executed) | Handlers.ReadOverRead | Handlers.CopiedBytes |
