# sql.js worker bundle — a verified model of its glue code

sql.js runs SQLite, compiled to WebAssembly, inside a web worker. The bundle
`dist/worker.sql-wasm.js` holds three kinds of code this project models.

- **Runtime glue.** These are the Emscripten runtime pieces the bindings rely on:
  - the UTF-8 codec between JavaScript strings and the heap;
  - POSIX-style path functions;
  - the in-memory file system (MEMFS) file buffers;
  - the file system's name hash table and its descriptor table.
- **The bindings.** These are the `Database` and `Statement` classes. Their state is
  the native handle, the statement map and each statement's pointer. SQLite
  itself is treated as an abstract oracle: every call into the engine is
  appended to a trace, and every answer is a function of the trace before the
  call.
- **The worker.** The `onmessage` dispatcher keeps one global `db` and posts
  one reply per message (or an error reply `{id, error: err.message}`).
  Beside it sits the single-flight loader `initSqlJs`, which builds the
  module at most once.

Modules (one file each, in dependency order):

- `Base`: bytes, code units, Option/Result and the WASI errno numbers.
- `Utf8`:
  - `stringToUTF8Array`, `lengthBytesUTF8`, `UTF8ArrayToString`, `UTF8ToString` and `intArrayFromString`;
  - the round trip for well-formed strings without a 0 unit.
- `Paths`:
  - `normalizeArray`, `normalize`, `dirname`, `basename` and `resolve`;
  - the normal form of `normalize`'s result, and the fact that `normalize` is idempotent.
- `MemFs`: the growable byte buffer of a MEMFS file: `expandFileStorage`, `resizeFileStorage`, read, write, llseek and allocate.
- `FsNames`:
  - the 4096-bucket hash of (parent id, name) and the chained name table;
  - `lookupNode`, `mayCreate`, `mknod`;
  - nodePermissions, the open-flag table, `flagsToPermissionString` and `getMode`.
- `FsStreams`: the descriptor table, with `nextfd`, `createStream` and `close`.
- `SqlDb`: `Statement` (bind, step, reset, free) and `Database` (run, exec, each, prepare, export, close, handleError).
- `SqlWorker`: `createDb`, the five actions, the unknown-action error, `onError`, and `onmessage`'s load-failure path.
- `Loader`: `initSqlJs`, its promise slot, the composed `onAbort` and the `postRun` resolve hook.

Some behaviours of the bundled code that sql.js's own documentation does not mention:
- `Database.close` on an open database sets the handle to null but leaves the worker's `db` set. A later "exec" then throws the string "Database closed", and the worker posts an error reply without a message.
- "exec" and "each" create a database only while `db` is null.
- "export" on a null `db` fails with V8's TypeError.

## Model

| member | source | states |
|---|---|---|
| Utf8.StringToUtf8Array | dist/worker.sql-wasm.js:104 | With a budget of 0 or less, nothing is written and 0 is returned. Otherwise the bytes are the longest run of whole code points that fits in maxBytes - 1, then one 0 byte. The count of bytes before the 0 is returned, and nothing outside that range changes. |
| Utf8.EncodeWhole | dist/worker.sql-wasm.js:104 | The loop writes exactly `Fit` of the string before the terminator's slot and touches no other byte. |
| Utf8.Encoding | dist/worker.sql-wasm.js:104 | The whole encoding of a string, with no budget (EncodingPoints states its structure). |
| Utf8.EncodePoint | dist/worker.sql-wasm.js:104 | One code point takes 1, 2, 3 or 4 bytes, by the encoder's thresholds. |
| Utf8.Fit | dist/worker.sql-wasm.js:104 | The encoder never writes more than its budget. |
| Utf8.FitStop | dist/worker.sql-wasm.js:104 | The encoder stops at the end of the string, or at the first code point that does not fit. |
| Utf8.FitStep | dist/worker.sql-wasm.js:104 | A code point that fits is written whole, ahead of the rest. |
| Utf8.Store | dist/worker.sql-wasm.js:104 | Writes a code point's bytes at the write position and changes nothing else. |
| Utf8.FitWhole | dist/worker.sql-wasm.js:104 | With room for the whole encoding, the encoder writes all of it. |
| Utf8.FitSplit | dist/worker.sql-wasm.js:104 | Whatever the budget, the output is a prefix of the encoding that ends on a code-point boundary, and the next code point would not have fitted. |
| Utf8.EncodePointNonzero | dist/worker.sql-wasm.js:104 | A nonzero code point encodes to nonzero bytes. |
| Utf8.EncodingNonzero | dist/worker.sql-wasm.js:104 | A string without U+0000 encodes without a 0 byte, so the terminator is the first 0. |
| Utf8.LengthBytesUtf8 | dist/worker.sql-wasm.js:105 | `lengthBytesUTF8` is the length of the encoder's full output, surrogate pairs included. |
| Utf8.ScanEnd | dist/worker.sql-wasm.js:103 | The terminator scan stops at the first 0 byte (or the end of the heap), or at idx + maxBytesToRead, whichever comes first. |
| Utf8.LeadWidth | dist/worker.sql-wasm.js:103 | The decoder consumes 1 to 4 bytes per lead byte. |
| Utf8.DecodeOne | dist/worker.sql-wasm.js:103 | One decoded sequence yields one or two UTF-16 units. |
| Utf8.Utf8ArrayToString | dist/worker.sql-wasm.js:103 | Returns the string obtained by decoding the bytes from idx up to the end of the scan. |
| Utf8.DecodeRange | dist/worker.sql-wasm.js:103 | The decoding loop builds exactly the decoding of the bytes in [idx, end). |
| Utf8.DecodeStep | dist/worker.sql-wasm.js:103 | One pass of the loop appends the units of one sequence and advances by its width. |
| Utf8.Utf8ToString | dist/worker.sql-wasm.js:103 | The null pointer gives ""; otherwise the decoding at the pointer. |
| Utf8.IntArrayFromString | dist/worker.sql-wasm.js:150 | The encoding plus a 0 byte, or the encoding alone when dontAddNull is set. |
| Utf8.DecodePoint | dist/worker.sql-wasm.js:103-104 | Decoding one encoded code point gives back its units and consumes exactly its bytes. |
| Utf8.Decode2 | dist/worker.sql-wasm.js:103-104 | The two-byte form decodes to its code point. |
| Utf8.Decode3 | dist/worker.sql-wasm.js:103-104 | The three-byte form decodes to its code point. |
| Utf8.Decode4 | dist/worker.sql-wasm.js:103-104 | The four-byte form decodes to its code point, split into a surrogate pair. |
| Utf8.UnitsOfPoint | dist/worker.sql-wasm.js:103-104 | At a code-point boundary of a well-formed string, the units of the code point read are exactly the units consumed. |
| Utf8.EncodingPoints | dist/worker.sql-wasm.js:104 | The encoding of a string is the concatenation of the encodings of its code points. |
| Utf8.Utf16Points | dist/worker.sql-wasm.js:103 | The units of a well-formed string's code points are the string itself. |
| Utf8.DecodeFlat | dist/worker.sql-wasm.js:103 | Decoding concatenated encodings of code points gives back their units. |
| Utf8.RoundTrip | dist/worker.sql-wasm.js:103-104 | A well-formed string without U+0000, encoded with its terminator anywhere in memory, decodes back to itself. This holds with no limit, or with a limit that covers the encoding. |
| Utf8.ScanStops | dist/worker.sql-wasm.js:103 | Over nonzero bytes, the scan stops at the terminator. |
| Paths.Split | dist/worker.sql-wasm.js:111 | `split("/")` gives at least one piece, and no piece holds a slash. |
| Paths.NonEmpty | dist/worker.sql-wasm.js:111 | The filter keeps only non-empty pieces of the input. |
| Paths.Segments | dist/worker.sql-wasm.js:111 | The segments of a path are non-empty and slash-free. |
| Paths.JoinSplit | dist/worker.sql-wasm.js:111 | `split("/")` followed by `join("/")` gives the string back. |
| Paths.SplitJoin | dist/worker.sql-wasm.js:111 | `join("/")` followed by `split("/")` gives slash-free pieces back. |
| Paths.SegmentsJoin | dist/worker.sql-wasm.js:111 | Joined segments split back into the same segments. |
| Paths.SegmentsLeadSlash | dist/worker.sql-wasm.js:111 | A leading slash does not change the segments. |
| Paths.SegmentsTrailSlash | dist/worker.sql-wasm.js:111 | A trailing slash does not change the segments. |
| Paths.Collapse | dist/worker.sql-wasm.js:111 | The backward pass keeps only input elements that are neither "." nor "..". |
| Paths.Ups | dist/worker.sql-wasm.js:111 | The prefix restored for a relative path is n copies of "..". |
| Paths.CollapseAt | dist/worker.sql-wasm.js:111 | One visit of the loop: "." is dropped, ".." raises the pending count, and another element is cancelled by a pending ".." or else kept. |
| Paths.NormalizeArray | dist/worker.sql-wasm.js:111 | The in-place splice loop computes NormalizeParts of its input. |
| Paths.CollapseBackward | dist/worker.sql-wasm.js:111 | The splice loop leaves the kept elements and the count of uncancelled "..". |
| Paths.Visit | dist/worker.sql-wasm.js:111 | One loop turn preserves the loop invariant. |
| Paths.NormalizePartsNormal | dist/worker.sql-wasm.js:111 | The output has no empty, "." or cancellable "..", and for an absolute path no ".." at all. |
| Paths.LeadingUps | dist/worker.sql-wasm.js:111 | Counts the leading ".." of a normal list. |
| Paths.CollapseNormal | dist/worker.sql-wasm.js:111 | On a normal list the backward pass keeps everything after the leading "..". |
| Paths.NormalizePartsFixed | dist/worker.sql-wasm.js:111 | normalizeArray leaves a normal list unchanged. |
| Paths.NormalizePartsIdempotent | dist/worker.sql-wasm.js:111 | normalizeArray applied twice equals once. |
| Paths.RenderShape | dist/worker.sql-wasm.js:111 | A rendered path keeps its kind (absolute or not), its segments and its trailing slash, and is never empty. |
| Paths.NormalizeRules | dist/worker.sql-wasm.js:111 | normalize's rules. The result is never empty and is absolute exactly when the input is. Its segments are the normalized segments, or "." for an empty relative path. It ends in a slash exactly when the input does, or when it is "/". |
| Paths.NormalizeRender | dist/worker.sql-wasm.js:111 | A rendered normal list is a fixed point of normalize. |
| Paths.NormalizeIdempotent | dist/worker.sql-wasm.js:111 | normalize(normalize(p)) == normalize(p). |
| Paths.Normalize | dist/worker.sql-wasm.js:111 | normalize: the rendering of the normalized segments, keeping the kind and the trailing slash (NormalizeRules states its rules). |
| Paths.LastSlash | dist/worker.sql-wasm.js:112 | `lastIndexOf("/")` is the last slash, or -1 when there is none. |
| Paths.AfterLastSlashJoin | dist/worker.sql-wasm.js:112 | After the last slash of joined segments comes the last segment. |
| Paths.AfterLastSlashRender | dist/worker.sql-wasm.js:112 | The text after the last slash of a rendered path, its trailing slash removed, is its last segment. |
| Paths.NormalizePartsSegments | dist/worker.sql-wasm.js:111 | normalizeArray on segments returns segments. |
| Paths.BasenameLast | dist/worker.sql-wasm.js:112 | basename of any path other than "/" is its last normalized segment, or "" (absolute) or "." (relative) when none is left. |
| Paths.Basename | dist/worker.sql-wasm.js:112 | basename: "/" stays "/"; otherwise what follows the last slash of the normalized path without its trailing slash (BasenameLast states it). |
| Paths.Trimmed | dist/worker.sql-wasm.js:112 | The `[\/]*` tail: the length once trailing slashes are removed. |
| Paths.DirLengthLazy | dist/worker.sql-wasm.js:112 | The lazy directory group of the dirname expression is the shortest prefix after which the rest matches. |
| Paths.DirnameSplit | dist/worker.sql-wasm.js:112 | dirname is the root group plus the directory group without its final slash. |
| Paths.Dirname | dist/worker.sql-wasm.js:112 | dirname: the root group plus the directory group without its final slash, "." when both are empty. |
| Paths.DirnameMany | dist/worker.sql-wasm.js:112 | With two or more segments, the root and the directory group render all but the last segment. |
| Paths.DirnameRender | dist/worker.sql-wasm.js:112 | On a normalized path, dirname drops the last segment. The result is "/" or "." when nothing is left. |
| Paths.LastDir | dist/worker.sql-wasm.js:112 | The directory group of a join of two or more segments is all but the last segment, with a slash. |
| Paths.DirnameJoined | dist/worker.sql-wasm.js:112 | dirname of a root, a body and an optional trailing slash. |
| Paths.Resolve | dist/worker.sql-wasm.js:114 | Computes ResolveOf: it scans right to left until an absolute argument (or the root), throws the TypeError for a non-string, and gives "" for an empty argument. |
| Paths.ResolveNormal | dist/worker.sql-wasm.js:114 | A successful resolve gives an absolute path that normalize leaves unchanged. |
| Paths.ResolveAbsoluteLast | dist/worker.sql-wasm.js:114 | Arguments to the left of an absolute one do not matter. |
| Paths.ResolveFromRoot | dist/worker.sql-wasm.js:114 | A leading "/" argument changes nothing, since resolve starts from the root. |
| MemFs.Growth | dist/worker.sql-wasm.js:120 | The doubling (or 1/8) growth target, wrapped by `>>> 0` to 32 bits. |
| MemFs.NewCapacity | dist/worker.sql-wasm.js:120 | The new capacity holds the request. It is at least 256 for a non-empty buffer, doubles below 1 MiB, and grows by 1/8 above (within 2^32). |
| MemFs.Resized | dist/worker.sql-wasm.js:120-121 | Resizing gives exactly n bytes: the old ones first, then zeros. |
| MemFs.ReadBytes | dist/worker.sql-wasm.js:123 | A read returns min(size - pos, len) bytes from pos, or none at or past the end. |
| MemFs.Written | dist/worker.sql-wasm.js:123-124 | The file contents after a write: the old bytes before the position (zero-filled up to it), the source bytes, then the old bytes after them (WrittenAt states it). |
| MemFs.WrittenAt | dist/worker.sql-wasm.js:123-124 | A write stores src at [pos, pos+len), keeps other old bytes, zero-fills any gap, and the size becomes max(size, pos+len). |
| MemFs.WrittenEmpty | dist/worker.sql-wasm.js:123-124 | A write at 0 into an empty file gives the written bytes. |
| MemFs.ReadAfterWrite | dist/worker.sql-wasm.js:123-124 | Reading back what was just written returns exactly the written bytes. |
| MemFs.WriteKeepsOthers | dist/worker.sql-wasm.js:123-124 | A write leaves every old byte outside its range in place. |
| MemFs.ResizedSame | dist/worker.sql-wasm.js:121 | Resizing to the current size changes nothing. |
| MemFs.ResizedTwice | dist/worker.sql-wasm.js:121 | Resizing to m and then to a smaller n equals resizing to n. |
| MemFs.SeekTarget | dist/worker.sql-wasm.js:124 | llseek's target: the offset plus the position for SEEK_CUR, plus the size of a file for SEEK_END, the offset alone otherwise. |
| MemFs.Llseek | dist/worker.sql-wasm.js:124 | llseek gives the target position (relative to 0, the position or the end), and EINVAL exactly when the target is negative. |
| MemFs.CopyRange | dist/worker.sql-wasm.js:120-124 | `set(subarray(...), at)` copies the range to `at` and changes nothing else. |
| MemFs.MemFile.constructor | dist/worker.sql-wasm.js:118 | a new regular file has no storage and size 0 |
| MemFs.MemFile.Expand | dist/worker.sql-wasm.js:120 | the file keeps its bytes; a new buffer of NewCapacity is allocated only when the capacity is short |
| MemFs.MemFile.Resize | dist/worker.sql-wasm.js:121 | the file becomes Resized(old, n); asking for the current size keeps the buffer |
| MemFs.MemFile.Read | dist/worker.sql-wasm.js:123 | copies ReadBytes into the buffer at the offset, returns its length, leaves the rest of the buffer |
| MemFs.MemFile.Write | dist/worker.sql-wasm.js:123-124 | the file becomes Written(old, position, source bytes) and the length is returned, whichever branch is taken |
| MemFs.MemFile.Replace | dist/worker.sql-wasm.js:123-124 | an empty file written at 0 becomes a copy of the source bytes |
| MemFs.MemFile.Store | dist/worker.sql-wasm.js:123-124 | the copy at the end of write lays the bytes at [position, position+length) |
| MemFs.MemFile.Allocate | dist/worker.sql-wasm.js:124 | the file grows to max(size, offset+length), with zero bytes |
| FsNames.Permission | dist/worker.sql-wasm.js:129 | Each of "r", "w" and "x" needs one of its owner/group/other bits, otherwise EACCES; everything passes while permissions are ignored. |
| FsNames.AnyRead | dist/worker.sql-wasm.js:129 | The read check for one mode. |
| FsNames.AnyWrite | dist/worker.sql-wasm.js:129 | The write check for one mode. |
| FsNames.AnyExec | dist/worker.sql-wasm.js:129 | The search check for one mode. |
| FsNames.ModeOfPermission | dist/worker.sql-wasm.js:142 | getMode(canRead, canWrite) grants reading exactly when canRead, and writing exactly when canWrite. |
| FsNames.FlagsToPermissions | dist/worker.sql-wasm.js:129 | flagsToPermissionString: "r", "w" or "rw" by the access mode, with "w" added for O_TRUNC; access mode 3 gives no string without O_TRUNC and "undefinedw" with it. |
| FsNames.ModeOf | dist/worker.sql-wasm.js:142 | getMode: 365 (r-x for all) for reading plus 146 (-w- for all) for writing. |
| FsNames.OpenPermission | dist/worker.sql-wasm.js:129 | The permission string of open flags asks for read unless O_WRONLY, and for write when O_WRONLY, O_RDWR or O_TRUNC. |
| FsNames.OpenFlags | dist/worker.sql-wasm.js:128-136 | A mode string is accepted exactly when it is in the table (giving its flags) or is a name every object inherits (giving flags 0); otherwise FS.open throws "Unknown file open mode: " followed by the mode. |
| FsNames.FlagTableShape | dist/worker.sql-wasm.js:128 | The table's design for reading: "r+" is "r" with O_RDWR, and "rs" is read-only. |
| FsNames.WriteFlagsShape | dist/worker.sql-wasm.js:128 | "w" is O_WRONLY with O_CREAT and O_TRUNC, "w+" the same with O_RDWR, "x" adds O_EXCL, and "xw" equals "wx". |
| FsNames.AppendFlagsShape | dist/worker.sql-wasm.js:128 | "a" is O_WRONLY with O_CREAT and O_APPEND, "a+" the same with O_RDWR, "x" adds O_EXCL, and "xa+" equals "ax+". |
| FsNames.Bucket | dist/worker.sql-wasm.js:127 | hashName's bucket is below 4096. |
| FsNames.NameHash | dist/worker.sql-wasm.js:127 | The running hash of hashName is a 32-bit signed value. |
| FsNames.HashStepWraps | dist/worker.sql-wasm.js:127 | `(c << 5) - c + u \| 0` equals 31c + u up to a multiple of 2^32. |
| FsNames.NameHashWraps | dist/worker.sql-wasm.js:127 | The wrapping hash differs from the polynomial by a multiple of 2^32. |
| FsNames.NameHashPoly | dist/worker.sql-wasm.js:127 | The wrapping hash agrees with the polynomial modulo 2^32. |
| FsNames.BucketPoly | dist/worker.sql-wasm.js:127 | The bucket is (parent + polynomial hash) mod 4096: the 32-bit wrap never changes it. |
| FsNames.HashName | dist/worker.sql-wasm.js:127 | The source's loop computes the bucket. |
| FsNames.FsNode.constructor | dist/worker.sql-wasm.js:148 | a node whose parent is itself when none is given |
| FsNames.ConsChain | dist/worker.sql-wasm.js:128 | Pushing a new node in front of a chain keeps it a chain without repeats. |
| FsNames.Find | dist/worker.sql-wasm.js:128 | A chain walk finds a node with this parent and name, or proves that none exists. |
| FsNames.DropAt | dist/worker.sql-wasm.js:127 | Dropping one position of a chain keeps it free of repeats and keeps the order. |
| FsNames.WithoutMembers | dist/worker.sql-wasm.js:127 | Unlinking removes exactly that node from its chain. |
| FsNames.ChainsPush | dist/worker.sql-wasm.js:128 | Registering a new node at its bucket's head keeps the table invariant. |
| FsNames.ChainsReplace | dist/worker.sql-wasm.js:127 | Replacing a chain by a repeat-free selection of its nodes keeps the table invariant. |
| FsNames.NodeTable.constructor | dist/worker.sql-wasm.js:148 | 4096 empty buckets, ids from 1, permissions ignored |
| FsNames.NodeTable.CreateNode | dist/worker.sql-wasm.js:128-148 | a new node with the next id heads its bucket, and a lookup of its name finds it |
| FsNames.NodeTable.Push | dist/worker.sql-wasm.js:128 | the node becomes the head of its bucket |
| FsNames.NodeTable.Lookup | dist/worker.sql-wasm.js:128 | the directory's search permission first (EACCES without a lookup operation), then the first node with this parent and name, or ENOENT (44) |
| FsNames.NodeTable.Predecessor | dist/worker.sql-wasm.js:127 | the walk finds the node just before the one to unlink |
| FsNames.NodeTable.Unlink | dist/worker.sql-wasm.js:127 | the node leaves its bucket, every other chain and node stays, and no node's mode changes |
| FsNames.NodeTable.PopHead | dist/worker.sql-wasm.js:127 | a bucket head is replaced by its successor |
| FsNames.NodeTable.Bypass | dist/worker.sql-wasm.js:127 | the predecessor skips the unlinked node |
| FsNames.NodeTable.MayCreate | dist/worker.sql-wasm.js:129 | EEXIST (20) exactly when the name resolves; otherwise the directory's write-and-search permission |
| FsNames.NodeTable.Mknod | dist/worker.sql-wasm.js:118-131 | an existing name gives EEXIST; every error is EINVAL, EEXIST, EACCES or EPERM and leaves the table unchanged; EINVAL exactly for an empty, `.` or `..` basename, EACCES exactly for a free name in a parent without write and search permission, EPERM exactly for an allowed name under a non-directory parent or for a block-device or FIFO mode, and a success exactly otherwise; a success adds a node under the basename that lookups find, with storage exactly for a regular file, and that storage is empty; the new node heads its bucket, joins the nodes and takes the next id |
| FsStreams.FsStream.constructor | dist/worker.sql-wasm.js:130 | a stream holds its node, path, flags and position, with no descriptor yet |
| FsStreams.LowestFree | dist/worker.sql-wasm.js:130 | The first free descriptor from the start up to 4096, or none when all are used. |
| FsStreams.FreedIsReused | dist/worker.sql-wasm.js:130-138 | A freed descriptor is handed out again, or a lower one is. |
| FsStreams.LowestFreeLocal | dist/worker.sql-wasm.js:130 | The search depends only on the slots from the start on. |
| FsStreams.StreamTable.NextFd | dist/worker.sql-wasm.js:130 | nextfd returns the lowest free slot in [start, 4096], or EMFILE (33). |
| FsStreams.StreamTable.CreateStream | dist/worker.sql-wasm.js:130 | the stream takes the lowest free slot and records it as its fd; a full table throws EMFILE and registers nothing |
| FsStreams.StreamTable.Close | dist/worker.sql-wasm.js:138 | EBADF (8) for a closed stream; otherwise its slot is freed and its fd cleared |
| SqlDb.AscendingMembers | dist/worker.sql-wasm.js:85-89 | `Object.values` of the statement map visits every key once. |
| SqlDb.AscendingSorted | dist/worker.sql-wasm.js:89 | `Object.values` visits integer keys in ascending order. |
| SqlDb.Finalizes | dist/worker.sql-wasm.js:85-89 | Freeing statements makes one finalize call per pointer, in order. |
| SqlDb.FinalizeFirst | dist/worker.sql-wasm.js:89 | Freeing the least pointer first leaves the rest to finalize. |
| SqlDb.Assign | dist/worker.sql-wasm.js:82 | One `q[name] = value` on getAsObject's plain object: while `__proto__` is inherited, writing it sets the prototype to a null or a blob, ignores other values, and makes no key; a name a blob prototype fixes is not written; any other name becomes an own key. |
| SqlDb.AsObjectKeys | dist/worker.sql-wasm.js:82 | Every key of getAsObject's object is a column name, and every column name other than `__proto__` and the names a blob prototype fixes is a key. |
| SqlDb.PlainKeys | dist/worker.sql-wasm.js:82 | When no `__proto__` column holds a null or a blob, the prototype stays `Object.prototype` and the keys are exactly the column names other than `__proto__`. |
| SqlDb.ProtoColumnNoKey | dist/worker.sql-wasm.js:82 | `SELECT 1 AS "__proto__"` gives an object with no key. |
| SqlDb.NullProtoThenKey | dist/worker.sql-wasm.js:82 | After a null `__proto__` column, a second `__proto__` column becomes an own key. |
| SqlDb.AsObjectLast | dist/worker.sql-wasm.js:82 | With repeated column names, the last column wins (for a name that is an ordinary key). |
| SqlDb.PositionalCalls | dist/worker.sql-wasm.js:84 | An array of parameters makes at most one bind call per value. |
| SqlDb.PositionalCallsShape | dist/worker.sql-wasm.js:84 | Those calls bind the leading bindable values, the i-th at position 1 + i, and stop at the first value `vb` cannot bind. |
| SqlDb.AcceptedRunMeaning | dist/worker.sql-wasm.js:83 | The accepted run counts the leading bind calls that pass handleError (a null passes unchecked); the call after them is refused. |
| SqlDb.PositionalOfCalls | dist/worker.sql-wasm.js:84 | Eb binds in order: Ok (and true) exactly when every value was bound and accepted, and then the calls made are all of them. A value of unknown type throws its "Wrong API use" text after the calls before it; a refused call is the last call made and its errmsg is thrown. |
| SqlDb.PositionalOfAccepted | dist/worker.sql-wasm.js:84 | When the first value is bound and accepted, the rest of the array binds in order after it. |
| SqlDb.NamedOfCalls | dist/worker.sql-wasm.js:84-85 | Fb makes only bind calls on this statement, at nonzero indexes, at most one per entry, each with the value of one of the entries; Ok is true. |
| SqlDb.NamedOfUnknown | dist/worker.sql-wasm.js:84-85 | An object none of whose names the statement has binds nothing and succeeds. |
| SqlDb.BindOfPositional | dist/worker.sql-wasm.js:79-80 | bind of an array on a live statement: the clear (and reset) calls first, then the positional bind calls; Ok exactly when all were made and accepted, and then those are all the calls. |
| SqlDb.PrepareOfOk | dist/worker.sql-wasm.js:88 | prepare succeeds exactly when the engine returns 0 and a statement and the binding (if any) succeeds; the statement is the engine's pointer; the prepare call comes first. |
| SqlDb.BindOfGrows | dist/worker.sql-wasm.js:79-80 | bind only appends calls. |
| SqlDb.PositionalOfGrows | dist/worker.sql-wasm.js:84 | Eb only appends calls. |
| SqlDb.Steps | dist/worker.sql-wasm.js:80 | n step calls on one statement. |
| SqlDb.StepsCons | dist/worker.sql-wasm.js:80 | One step followed by n steps is n + 1 steps. |
| SqlDb.StepAllShape | dist/worker.sql-wasm.js:87-88 | Stepping to the end makes one step per row and one more; the k-th row is read after k + 1 steps, each answered SQLITE_ROW; the last step's code is the final one; there are no more rows than the engine allows. |
| SqlDb.ExecOfResults | dist/worker.sql-wasm.js:87 | exec only appends calls, keeps what it collected in front, and every entry it returns has at least one row. |
| SqlDb.CollectOfGrows | dist/worker.sql-wasm.js:87 | A collected entry is never empty, and collecting only appends calls. |
| SqlDb.ExecOneStatement | dist/worker.sql-wasm.js:87 | A one-statement script without parameters: prepare, step to the end, finalize, and return that statement's rows under the column names of the first row, or [] when it gave none. |
| SqlDb.EachOfRows | dist/worker.sql-wasm.js:88 | Once prepared, each makes one row object per SQLITE_ROW step, from that step's column names and values, in order, then finalizes; it succeeds exactly when the last step gave SQLITE_DONE; a failed prepare gives no row. |
| SqlDb.RunOfParams | dist/worker.sql-wasm.js:86-87 | run with parameters: a failed prepare throws its error; otherwise one step and a finalize, and it succeeds exactly when the step gave a row or finished. |
| SqlDb.ExportOfOk | dist/worker.sql-wasm.js:89 | export succeeds exactly when the close, the read and the reopen all do, and returns the bytes read after the close; a close error throws errmsg, a missing file the FS error. |
| SqlDb.Statement.constructor | dist/worker.sql-wasm.js:74 | a statement over a pointer of its database, with its column cursor at 1 |
| SqlDb.Statement.Step | dist/worker.sql-wasm.js:80 | "Statement closed" once freed, with no engine call; otherwise one step: true for SQLITE_ROW, false for SQLITE_DONE, the engine's error otherwise |
| SqlDb.Statement.Reset | dist/worker.sql-wasm.js:85 | the calls and result are ResetOf: clear the bindings, reset only when clearing returned 0, true exactly when both returned 0 |
| SqlDb.Statement.BindAt | dist/worker.sql-wasm.js:83-84 | the calls and result are BindOne: a value of unknown type throws "Wrong API use : tried to bind a value of an unknown type (…)." with no call; otherwise one bind call, a null not error-checked |
| SqlDb.Statement.BindPositional | dist/worker.sql-wasm.js:84 | the calls and result are PositionalOf from position 1, whose meaning PositionalOfCalls states |
| SqlDb.Statement.BindNamed | dist/worker.sql-wasm.js:84-85 | the calls and result are NamedOf, whose meaning NamedOfCalls and NamedOfUnknown state |
| SqlDb.Statement.Bind | dist/worker.sql-wasm.js:79-80 | the calls and result are BindOf: "Statement closed" once freed; otherwise reset, then bind by position or name, and true with no bind call for a non-object |
| SqlDb.Statement.Free | dist/worker.sql-wasm.js:85 | finalizes, unregisters the pointer, marks the statement freed; true exactly when finalize returned 0 |
| SqlDb.Database.HandleError | dist/worker.sql-wasm.js:89-90 | Nothing for code 0; otherwise an Error whose message is the engine's errmsg. |
| SqlDb.Database.FreeLeast | dist/worker.sql-wasm.js:89 | frees the statement with the least pointer |
| SqlDb.Database.FreeAll | dist/worker.sql-wasm.js:89 | every statement freed, finalized in ascending pointer order, map empty |
| SqlDb.Database.Close | dist/worker.sql-wasm.js:89 | a no-op once closed; otherwise the calls and result are CloseOf (free all, close the handle, delete the file), and only success drops the handle |
| SqlDb.Database.Export | dist/worker.sql-wasm.js:89 | the calls and result are ExportOf (free all, close, read the file, reopen); success stores the reopened handle, failure keeps the old one |
| SqlDb.Database.Prepare | dist/worker.sql-wasm.js:88 | the calls and result are PrepareOf; a statement object is made and registered under its pointer exactly on success, and nothing is registered on failure |
| SqlDb.Database.Run | dist/worker.sql-wasm.js:86-87 | the calls and result are RunOf: "Database closed" with no call; without (truthy) parameters the script in one call; with them, prepare, one step, free |
| SqlDb.Database.Collect | dist/worker.sql-wasm.js:87 | the calls and result are CollectOf: bind, step to the end, and a `{columns, values}` entry of every row when one came |
| SqlDb.Database.ExecStatement | dist/worker.sql-wasm.js:87 | CollectOf's calls and result, then the finalize; the pointer is unregistered |
| SqlDb.Database.ExecRound | dist/worker.sql-wasm.js:87 | one round of exec's loop advances ExecOf exactly: a prepare error frees the statement in hand and ends the loop |
| SqlDb.Database.Exec | dist/worker.sql-wasm.js:87 | the calls and result are ExecScript, exec's loop over the script as a function of the trace, whose entries ExecOfResults describes |
| SqlDb.Database.RowObjects | dist/worker.sql-wasm.js:88 | each's loop: the trace of StepAll and one row object per row step, with the last step's answer |
| SqlDb.Database.Each | dist/worker.sql-wasm.js:88 | the calls, the rows handed to the callback and the result are EachOf, whose meaning EachOfRows states; a prepared statement is always freed and unregistered |
| SqlDb.WellBehavedStep | dist/worker.sql-wasm.js:80 | Under the engine assumption, a step that yields a row brings the statement closer to done. |
| SqlDb.ImageCall | dist/worker.sql-wasm.js:74-75 | non-null data that is falsy only creates the file; any other data creates it and writes its bytes |
| SqlDb.OpenOfOk | dist/worker.sql-wasm.js:74-75 | null or undefined data makes no file call, falsy data only creates the file, truthy data writes its bytes; new Database succeeds exactly when that file call (if any) and the open return 0, and then answers the opened handle with the extensions registered right after the open; a failed file call throws the FS error before any open; a failed open throws errmsg of the null handle. |
| SqlDb.NewDatabase | dist/worker.sql-wasm.js:74-75 | the calls and outcome are OpenOf: create the file for non-null data and write truthy data into it (an FS error throws), open the file (its error throws), register the extensions; a success is a fresh database with no statement |
| SqlWorker.ErrorReplies | dist/worker.sql-wasm.js:283-287 | onError posts {id, error: message}: undefined for a thrown string, the message for an Error, and nothing for null. |
| SqlWorker.RowReplies | dist/worker.sql-wasm.js:246-252 | One `{id, row, finished: false}` per row, in row order. |
| SqlWorker.RespondIds | dist/worker.sql-wasm.js:221-287 | Every reply a message causes carries that message's id. |
| SqlWorker.RespondFailureLast | dist/worker.sql-wasm.js:283-297 | An action's own replies hold no failure; a failure reply comes last exactly when the action threw something other than null; an action that did not throw posted something. |
| SqlWorker.EachFailureLast | dist/worker.sql-wasm.js:242-259 | The same for "each", whose rows may come before its failure. |
| SqlWorker.RespondSingle | dist/worker.sql-wasm.js:223-280 | Every action but "each" causes at most one reply. |
| SqlWorker.RespondGrows | dist/worker.sql-wasm.js:223-280 | Handling a message only appends engine calls. |
| SqlWorker.ExecOutcomeGrows | dist/worker.sql-wasm.js:231-241 | "exec" only appends engine calls. |
| SqlWorker.EachOutcomeGrows | dist/worker.sql-wasm.js:242-259 | "each" only appends engine calls. |
| SqlWorker.ExecOutcomeResults | dist/worker.sql-wasm.js:238-241 | An "exec" that did not throw posts one `{id, results}` whose every entry has a row. |
| SqlWorker.CreateOfClosesFirst | dist/worker.sql-wasm.js:214-218 | A createDb that succeeds on a live database closed it before opening the new one. |
| SqlWorker.Worker.constructor | dist/worker.sql-wasm.js:291 | `db` starts null with nothing posted |
| SqlWorker.Worker.CreateDb | dist/worker.sql-wasm.js:214-218 | the calls and outcome are CreateOf (close the current database, then OpenOf); a success is a fresh empty database on the file; on a throw the worker keeps the database it had |
| SqlWorker.Worker.HandleOpen | dist/worker.sql-wasm.js:224-230 | the calls, replies and thrown value are OpenOutcome: createDb on the buffer, then {id, ready: true} |
| SqlWorker.Worker.EnsureDatabase | dist/worker.sql-wasm.js:232-234 | the calls and handle are EnsureDb: createDb only while `db` is null |
| SqlWorker.Worker.HandleExec | dist/worker.sql-wasm.js:231-241 | the calls, replies and thrown value are ExecOutcome: createDb while null, "exec: Missing query string" for a falsy sql, then {id, results} with ExecScript's result or its error |
| SqlWorker.Worker.PostEach | dist/worker.sql-wasm.js:242-259 | each on the current database: EachOf's calls, a row reply per row, then {id, finished: true} unless it threw |
| SqlWorker.Worker.HandleEach | dist/worker.sql-wasm.js:242-259 | the calls, replies and thrown value are EachOutcome |
| SqlWorker.Worker.HandleExport | dist/worker.sql-wasm.js:260-270 | the calls, replies and thrown value are ExportOutcome: a TypeError with no call while `db` is null, otherwise ExportOf and {id, buffer} |
| SqlWorker.Worker.HandleClose | dist/worker.sql-wasm.js:271-277 | the calls, replies and thrown value are CloseOutcome: CloseOf on a live database, then {id}; `db` keeps the closed object |
| SqlWorker.Worker.Dispatch | dist/worker.sql-wasm.js:223-280 | the calls, replies and thrown value are Respond's for the message's action; only a string action can match a case, since the switch compares with `===`; any other action throws "Invalid action : …" |
| SqlWorker.UnknownActionInvalid | dist/worker.sql-wasm.js:223-279 | an action that is not one of the five strings (including a non-string that renders to a case's name) makes no call, posts nothing and throws "Invalid action : " followed by its rendering |
| SqlWorker.ArrayOpenInvalid | dist/worker.sql-wasm.js:223-279 | the array action ["open"] opens nothing and throws "Invalid action : open" |
| SqlWorker.Worker.OnMessage | dist/worker.sql-wasm.js:293-297 | without data nothing happens; otherwise the calls are Respond's and the worker posts Posted: the action's replies, then onError's reply for what it threw; a failed load fails every message |
| SqlWorker.Worker.CloseThenExec | dist/worker.sql-wasm.js:231-277 | after a close went through, an exec posts an error reply without a message |
| Loader.WithHook | dist/worker.sql-wasm.js:46-50 | `postRun` becomes the user's list, or a new one, with the resolve hook pushed last. A single function has no `push`, and the executor throws. |
| Loader.AbortEffects | dist/worker.sql-wasm.js:38-44 | The loader's onAbort rejects its promise with the reason, then calls the user's onAbort last, with the same reason. |
| Loader.Promise.Resolve | dist/worker.sql-wasm.js:49 | only the first settlement counts |
| Loader.Promise.Reject | dist/worker.sql-wasm.js:40 | only the first settlement counts |
| Loader.SqlJsLoader.InitSqlJs | dist/worker.sql-wasm.js:14-50 | a stored promise is returned as it is, with the argument untouched; otherwise one new promise is stored and the module object configured, and a null config or a failed start-up rejects it |
| Loader.SqlJsLoader.CallAbort | dist/worker.sql-wasm.js:38-44 | rejects every pending promise in the chain with the reason, and logs the calls in order |
| Loader.SqlJsLoader.RunHook | dist/worker.sql-wasm.js:47-50 | the resolve hook settles the promise with the module object |
| Loader.SqlJsLoader.InitTwice | dist/worker.sql-wasm.js:18-22 | two calls share one promise and one instantiation |
| Loader.SqlJsLoader.AbortAfterInit | dist/worker.sql-wasm.js:38-44 | after configuration, an abort rejects with the reason and then still calls the user's onAbort |

## Left out

- Utf8.Utf8ArrayToString: the TextDecoder fast path for more than 16 bytes is not modelled. The model always takes the hand-written loop, which is what `Va` does when no decoder is present.
- MemFs: `canOwn` (handing the caller's buffer over), mmap and msync are not modelled.
- MemFs: the plain-array branch of resizeFileStorage is not modelled.
- MemFs: timestamps are not modelled.
- MemFs.NewCapacity: the `>>> 0` is modelled alongside the 2^32 bound only below 2^53, where JavaScript numbers are exact.
- FsNames: lookupPath, the MEMFS child map, device operations, getdents and `/proc/self/fd` are host plumbing outside this model.
- Paths: dirname's regular expression is modelled by its groups (a greedy root, a lazy directory, a slash-free tail).
- Paths.Resolve: the TypeError is modelled as an argument of kind `NotString`.
- SqlDb: SQLite itself is an oracle over the trace of calls. `WellBehaved` (a prepare of non-empty text consumes text; a statement has finitely many rows) is an assumption about SQLite that Exec and Each need to terminate.
- SqlDb: column getters (doubles, BigInt, `config.useBigInt`) are not modelled; a row is the engine's values as given.
- SqlDb: bind's choice of value kind (int, double, text or blob) is not modelled.
- SqlDb.AsObject: a row object is a map, so the order of its keys is not modelled. In JavaScript, integer-like keys come first in ascending order and the other keys follow in first-write order; `postMessage` keeps that order in `Reply.RowReply`.
- SqlDb.Image: truthy data that is a string is written as its code units, each truncated to a byte when the file's `Uint8Array` stores it. The model takes the bytes as given.
- SqlDb.Assign: once a blob is an object's prototype, a column named by a canonical numeric string (such as "0" or "1.5") meets the `Uint8Array`'s own index rules, which skip an index outside the array. The model always stores such a name as a key.
- SqlDb.Statement.BindAt: a value `vb` cannot bind is modelled as `Param.Unbindable` together with its rendering in the error text. A Symbol is not modelled: building that text would itself throw a TypeError.
- SqlDb.Statement.Bind: a parameter that is not an object is modelled as `Params.Scalar`. As in the source, it binds nothing and gives true.
- SqlDb.Database.Each: the `(sql, callback, done)` argument reshuffle for a function in the params slot is not modelled. The worker always passes three arguments. Messages cannot carry functions, so the callback is modelled by the returned row list, and `done` is always called on success.
- SqlDb: `create_function`, the function map it keeps, and the function-map cleanup in close and export are not modelled.
- SqlDb: `iterateStatements`, `getRowsModified`, `getSQL` and `getNormalizedSQL` are not modelled.
- SqlDb.Database.Exec: the tail pointer of prepare is measured in code units, not in UTF-8 bytes. It is read as units consumed from the text.
- SqlDb: readFile's own errno is modelled as the generic FS error.
- SqlDb.Database.Export: the source does not re-register the extension functions after reopening. The model follows the source.
- SqlWorker: the random database file name is a parameter.
- SqlWorker: the transfer list of the export reply (and its catch) posts the same message either way, so it is left out.
- SqlWorker: `config` is read but only passed to getters that this model does not have.
- SqlWorker.HandleEach: a missing sql is handed over as empty text.
- SqlWorker: V8's TypeError wording is used for `db.export` on null.
- Loader: V8's TypeError wording is used for a null config and for `push` on a function.
- Loader: the runtime's run queue (preRun, and postRun running hooks in reverse order) is host plumbing outside this model.
- Loader: `module = undefined` only affects the export shim, which is not modelled.
- Loader: only a missing, null or object argument is modelled; primitives are not.
- Loader: an `onAbort` value that is truthy but not a function is not modelled.
- Loader: `new Error(undefined)` is not modelled; a reason is always text.
