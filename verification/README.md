# JsonPersister in Dafny

This project models the core of JavaJsonFilePersister and proves properties of the model. JavaJsonFilePersister is a small Java library that stores plain objects as JSON files under a base directory, one file per object.

- **Record location.** An object of type `T` with id `id` lives at `<base>/<T>/<shard>/<id>.json`. The shard is a five-character code drawn from `0-9a-z`, computed by `Utils.getHash` from the UTF-8 bytes of the trimmed id.
- **Ids.** The id is the single `@Id` String field of the class. A blank id is replaced by one from an id provider before the first write.
- **Reading and listing.** `read`, `isExisting`, `delete`, `list` and `getList` find records again through the same path, or by walking the type directory.
- **Backups.** A `BackupHandler` writes the whole store as one stream and reads it back. The stream format is:
  - a `DataOutputStream` header `v:1.0\n`;
  - one `F:/<relative path>` tag per file, followed by the file's 8-byte big-endian length and its bytes;
  - a closing `$:<sha-256 hex>` line.

## Modules

- **Wrappers**: `Option`, `Result` and `Outcome`.
- **JavaLang**: the Java library behaviour the core relies on:
  - 32-bit `int` arithmetic, `Math.abs`, and the truncating `%`;
  - signed bytes;
  - `String.trim`, `indexOf`, `lastIndexOf`, `toLowerCase` and `compareTo`;
  - UTF-8 encoding;
  - the exception kinds that are thrown.
- **Strings**: the blank helpers of `Utils`.
- **ShardHash**: `Utils.getHash`. This includes the array loop (`GetHash`, `HashLoop`) and its functional specification `Hash`.
- **Streams**:
  - input and output streams and a message digest, as classes with state;
  - the three `Utils.copy` overloads, as loops over those classes.
- **FileTree**:
  - a directory tree as a value;
  - `Utils.travers` as a work-list loop, proved against `Run`, a fold over the walk order that stops at the first exception;
  - `Utils.list` and `FILE_COMPARATOR`.
- **Asserts**: `Assert.notNull` and `Assert.isDirectory`.
- **Persister**:
  - the `JsonPersister` class, with its file store, id-field cache and id provider;
  - record paths;
  - `Storage.traversObjects`;
  - `list` / `getList`.
- **BackupFormat**:
  - `writeUTF`/`readUTF` framing and modified UTF-8;
  - `writeLong`/`readLong`;
  - the lower-case hex checksum text.
- **Backup**:
  - the `BackupHandler` class;
  - the stream `writeBackup` produces (`BackupStream`) and what `readBackup` does to the store (`RestoreFrom`);
  - the round trip between the two.

The file system is a map from relative path to bytes. A record with a blank id gets no directory (`getDir` returns `null`), so Java resolves `new File(null, id + ".json")` against the working directory. A separate working-directory map models those files.

Directory listings come from a tree passed as a parameter, in the order the operating system lists entries. For a backup, the tree must list exactly the files below the base directory (`Backup.Mirrors`). The following are parameters as well:

- Gson encoding and decoding;
- SHA-256;
- the id provider;
- `Class.forName` (a predicate saying which type names resolve).

## Model

| member | source | states |
|---|---|---|
| JavaLang.Wrap32 | src/main/java/de/greyshine/jsonpersister/util/Utils.java:342-344 | `int` multiplication wraps to 32 bits and is the identity on values already in range |
| JavaLang.Abs32 | src/main/java/de/greyshine/jsonpersister/util/Utils.java:345 | `Math.abs` is negative exactly for `Integer.MIN_VALUE` and is the absolute value otherwise |
| JavaLang.Rem | src/main/java/de/greyshine/jsonpersister/util/Utils.java:345 | Java's `%` truncates: the remainder has the sign of the dividend and magnitude below the divisor |
| JavaLang.ToByte | src/main/java/de/greyshine/jsonpersister/util/Utils.java:466 | the `(byte) r` cast of a value read from a stream is undone by reading the byte back unsigned |
| JavaLang.TrimEmptyIff | src/main/java/de/greyshine/jsonpersister/util/Utils.java:71-73 | `trim()` is empty iff every character is at most U+0020 |
| JavaLang.IndexOf | src/main/java/de/greyshine/jsonpersister/BackupHandler.java:119 | `indexOf('/', 3)` is -1 iff no slash follows position 3, and otherwise the first such slash |
| JavaLang.LastIndexOf | src/main/java/de/greyshine/jsonpersister/JsonPersister.java:329 | `lastIndexOf(".json")` is -1 or an occurrence, and no later occurrence exists |
| JavaLang.ToLowerCase | src/main/java/de/greyshine/jsonpersister/JsonPersister.java:408 | the ASCII lower-casing used here keeps the length and maps each character by itself (Java's full Unicode mapping is under Left out) |
| JavaLang.CompareToZero | src/main/java/de/greyshine/jsonpersister/util/Utils.java:64 | `String.compareTo` is 0 exactly for equal names |
| JavaLang.CompareToAntisymmetric | src/main/java/de/greyshine/jsonpersister/util/Utils.java:64 | swapping the operands of `compareTo` negates the result |
| JavaLang.CompareToTransitive | src/main/java/de/greyshine/jsonpersister/util/Utils.java:64 | `compareTo` orders names transitively |
| JavaLang.Utf16Injective | src/main/java/de/greyshine/jsonpersister/util/Utils.java:64 | distinct names have distinct UTF-16 units, the sequences `compareTo` compares |
| JavaLang.CompareToByUnits | src/main/java/de/greyshine/jsonpersister/util/Utils.java:64 | `compareTo` orders by UTF-16 units, so a supplementary character sorts before a character from U+E000 on although its code point is larger |
| JavaLang.Utf8Length | src/main/java/de/greyshine/jsonpersister/util/Utils.java:317 | `getBytes("UTF-8")` yields between 1 and 4 bytes per character and is the identity on ASCII text |
| JavaLang.ToRuntime | src/main/java/de/greyshine/jsonpersister/util/Utils.java:375-382 | `toRuntimeException` always yields an unchecked exception and passes unchecked ones through unchanged |
| Strings.IsBlank | src/main/java/de/greyshine/jsonpersister/util/Utils.java:71-73 | blank iff null or only characters at most U+0020 |
| Strings.IsNotBlank | src/main/java/de/greyshine/jsonpersister/util/Utils.java:75-77 | not blank iff non-null and some character above U+0020 |
| Strings.DefaultIfNull | src/main/java/de/greyshine/jsonpersister/util/Utils.java:79-81 | the value when present, the default otherwise |
| Strings.DefaultIfBlank | src/main/java/de/greyshine/jsonpersister/util/Utils.java:83-85 | the default exactly when the value is blank |
| Strings.NullIfBlank | src/main/java/de/greyshine/jsonpersister/util/Utils.java:87-89 | null iff the value is blank, the value otherwise |
| Strings.EmptyIfBlank | src/main/java/de/greyshine/jsonpersister/util/Utils.java:91-93 | empty iff the value is blank or empty, the value otherwise |
| Strings.BlankComplement | src/main/java/de/greyshine/jsonpersister/util/Utils.java:71-77 | `isBlank` and `isNotBlank` are exact complements |
| Strings.SecondArgumentIgnored | src/main/java/de/greyshine/jsonpersister/util/Utils.java:87-93 | `nullIfBlank` and `emptyIfBlank` never depend on their default argument |
| Strings.VisibleCharNotBlank | src/main/java/de/greyshine/jsonpersister/util/Utils.java:71-77 | a string holding any character above U+0020 is not blank, whatever surrounds it |
| ShardHash.SlotIndex | src/main/java/de/greyshine/jsonpersister/util/Utils.java:342-345 | the alphabet index lies strictly between minus the alphabet size and the size, and is negative only when the product is `Integer.MIN_VALUE` |
| ShardHash.SlotIndexFixed | src/main/java/de/greyshine/jsonpersister/util/Utils.java:342-345 | the corrected index is always in range and equals the original whenever that is non-negative |
| ShardHash.Fill | src/main/java/de/greyshine/jsonpersister/util/Utils.java:335-350 | the loop keeps a buffer of exactly `inLen` characters and can fail only with an array index exception |
| ShardHash.FillFailureSticks | src/main/java/de/greyshine/jsonpersister/util/Utils.java:335-350 | once an iteration throws, further iterations change nothing |
| ShardHash.FillWritten | src/main/java/de/greyshine/jsonpersister/util/Utils.java:347-349 | every slot written so far holds a character of the alphabet |
| ShardHash.FillInRange | src/main/java/de/greyshine/jsonpersister/util/Utils.java:345-347 | with an in-range index the loop never throws |
| ShardHash.FillAgrees | src/main/java/de/greyshine/jsonpersister/util/Utils.java:345 | two index functions that agree on all in-range values give the same hash whenever the first succeeds |
| ShardHash.AlphabetIndex | src/main/java/de/greyshine/jsonpersister/util/Utils.java:342-345 | the imperative index computation equals `SlotIndex` |
| ShardHash.WriteSlot | src/main/java/de/greyshine/jsonpersister/util/Utils.java:339-349 | one loop pass updates the char array exactly as one `Step` of the specification |
| ShardHash.ResetValueIndex | src/main/java/de/greyshine/jsonpersister/util/Utils.java:337-340 | the value index wraps to 0 at the end of the value array |
| ShardHash.HashLoop | src/main/java/de/greyshine/jsonpersister/util/Utils.java:331-352 | the array loop computes `Fill` over `max(length, inLen)` iterations |
| ShardHash.GetHash | src/main/java/de/greyshine/jsonpersister/util/Utils.java:325-353 | `getHash(byte[], …)` returns exactly `Hash`, including the empty result for degenerate inputs and the exception |
| ShardHash.GetHashOfString | src/main/java/de/greyshine/jsonpersister/util/Utils.java:313-323 | null for a null string; `NullPointerException` for a null alphabet; otherwise the hash of the string's UTF-8 bytes |
| ShardHash.HashEmptyIff | src/main/java/de/greyshine/jsonpersister/util/Utils.java:327-329 | the hash is empty iff the length is below 1, or the alphabet or the values are empty |
| ShardHash.HashShape | src/main/java/de/greyshine/jsonpersister/util/Utils.java:331-352 | a successful non-degenerate hash has exactly `inLen` characters, all from the alphabet |
| ShardHash.CrashValues | src/main/java/de/greyshine/jsonpersister/util/Utils.java:342 | the counterexample input: 255 zero bytes followed by -128 |
| ShardHash.HashCrashExample | src/main/java/de/greyshine/jsonpersister/util/Utils.java:342-347 | as written, `getHash` throws `ArrayIndexOutOfBoundsException(-2)` for that input, length 1 and a three-letter alphabet of U+FF00 |
| ShardHash.HashFixedShape | src/main/java/de/greyshine/jsonpersister/util/Utils.java:325-353 | the corrected hash is empty exactly for degenerate input, and otherwise has `inLen` characters from the alphabet, never throwing |
| ShardHash.HashFixedAgrees | src/main/java/de/greyshine/jsonpersister/util/Utils.java:325-353 | the corrected hash equals the original wherever the original succeeds |
| Streams.InStream.Read | src/main/java/de/greyshine/jsonpersister/util/Utils.java:463 | `read()` returns the next byte unsigned and consumes it, or -1 at the end of the stream |
| Streams.InStream.ReadInto | src/main/java/de/greyshine/jsonpersister/util/Utils.java:486 | `read(buffer)` fills a prefix of the buffer with the next bytes, or returns -1 at the end with nothing changed |
| Streams.OutStream.Write | src/main/java/de/greyshine/jsonpersister/util/Utils.java:470 | `write(int)` appends that byte |
| Streams.OutStream.WriteFrom | src/main/java/de/greyshine/jsonpersister/util/Utils.java:492 | `write(buffer, 0, n)` appends the buffer's first n bytes |
| Streams.MessageDigest.Update | src/main/java/de/greyshine/jsonpersister/util/Utils.java:465-467 | the digest input grows by that byte |
| Streams.MessageDigest.UpdateFrom | src/main/java/de/greyshine/jsonpersister/util/Utils.java:489 | the digest input grows by the buffer's first n bytes |
| Streams.MessageDigest.Digest | src/main/java/de/greyshine/jsonpersister/BackupHandler.java:71 | `digest()` is the hash of everything fed so far, and resets the input |
| Streams.Moved | src/main/java/de/greyshine/jsonpersister/util/Utils.java:457-472 | the bounded copy moves a prefix of the input: nothing for a bound below 1, otherwise `min(bound, available)` bytes |
| Streams.CopyBounded | src/main/java/de/greyshine/jsonpersister/util/Utils.java:451-475 | -1 when a stream is null; otherwise exactly `Moved` is consumed, written and digested, and the count is its length |
| Streams.CopyAll | src/main/java/de/greyshine/jsonpersister/util/Utils.java:477-497 | -1 when a stream is null; otherwise the whole rest of the input is written and digested, and the count is its length |
| Streams.Drain | src/main/java/de/greyshine/jsonpersister/util/Utils.java:483-495 | the read loop leaves the input exhausted, appends everything it held to the output and the digest, and counts it |
| Streams.CopyChunk | src/main/java/de/greyshine/jsonpersister/util/Utils.java:486-493 | one pass reports end of stream exactly when the input is empty; otherwise it moves a non-empty prefix of the input to the output and the digest, in that order of bytes |
| Streams.Copy | src/main/java/de/greyshine/jsonpersister/util/Utils.java:446-448 | the two-argument copy behaves as the digest-less buffered copy |
| Streams.MovedSplit | src/main/java/de/greyshine/jsonpersister/util/Utils.java:463-472 | copying a then b bytes equals copying a + b bytes |
| FileTree.Child | src/main/java/de/greyshine/jsonpersister/util/Utils.java:427 | a listed entry's path is its directory's path plus its name |
| FileTree.WalkCoversTree | src/main/java/de/greyshine/jsonpersister/util/Utils.java:412-438 | the walk order visits every node of the tree exactly once |
| FileTree.RunAppend | src/main/java/de/greyshine/jsonpersister/util/Utils.java:417-437 | traversal of two parts continues into the second only if the first threw nothing, and otherwise stops |
| FileTree.Travers | src/main/java/de/greyshine/jsonpersister/util/Utils.java:403-439 | nothing happens for a null root or handler; a directory root is handled in walk order, stopping silently at the first exception; a file root is handled twice and then fails on its null listing |
| FileTree.WorkList | src/main/java/de/greyshine/jsonpersister/util/Utils.java:412-438 | the directory work-list loop ends in the state `Run` gives for the walk |
| FileTree.HandleEntries | src/main/java/de/greyshine/jsonpersister/util/Utils.java:427-437 | the per-directory `forEach` handles files at once, queues sub-directories at the front, and records the first exception |
| FileTree.FileCompareZero | src/main/java/de/greyshine/jsonpersister/util/Utils.java:50-66 | the comparator is 0 exactly for two files, or two directories, with the same name |
| FileTree.FileCompareAntisymmetric | src/main/java/de/greyshine/jsonpersister/util/Utils.java:50-66 | the comparator is antisymmetric and total: files come before directories |
| FileTree.FileCompareTransitive | src/main/java/de/greyshine/jsonpersister/util/Utils.java:50-66 | the comparator is transitive |
| FileTree.Insert | src/main/java/de/greyshine/jsonpersister/util/Utils.java:204 | insertion keeps the list sorted and adds exactly the one element |
| FileTree.Sort | src/main/java/de/greyshine/jsonpersister/util/Utils.java:204 | the sorted list is ordered by the comparator and is a permutation of its input |
| FileTree.SortedUnique | src/main/java/de/greyshine/jsonpersister/util/Utils.java:204 | with distinct keys there is only one sorted permutation, so the order does not depend on the listing order |
| FileTree.Accepted | src/main/java/de/greyshine/jsonpersister/util/Utils.java:195-202 | an entry is kept iff the filter accepts it |
| FileTree.List | src/main/java/de/greyshine/jsonpersister/util/Utils.java:183-207 | empty unless the argument is a directory; otherwise the accepted entries (all of them with no filter), sorted, as a permutation |
| Asserts.NotNull | src/main/java/de/greyshine/jsonpersister/util/Assert.java:9-11 | fails iff the object is null, with the trimmed message or the default "Given Object is null" |
| Asserts.NotNullMessageNotBlank | src/main/java/de/greyshine/jsonpersister/util/Assert.java:9-11 | the failure message is never blank |
| Asserts.IsDirectory | src/main/java/de/greyshine/jsonpersister/util/Assert.java:13-17 | passes iff the file is a directory; otherwise "No directory: " followed by the canonical path, or by "null" |
| Persister.ShardCode | src/main/java/de/greyshine/jsonpersister/JsonPersister.java:224 | a non-blank id's shard is five characters of `0-9a-z` |
| Persister.RecordFile | src/main/java/de/greyshine/jsonpersister/JsonPersister.java:214-236 | a blank id lands in the working directory as `<id>.json`; any other id lands at `<type>/<shard>/<id>.json` |
| Persister.SameTrimSameShard | src/main/java/de/greyshine/jsonpersister/JsonPersister.java:224 | ids equal after trimming share the shard directory |
| Persister.ShardCodeAgrees | src/main/java/de/greyshine/jsonpersister/JsonPersister.java:224 | wherever `getHash` as written returns a code for the trimmed id, the store's shard code is that code |
| Persister.RecordFileInjective | src/main/java/de/greyshine/jsonpersister/JsonPersister.java:214-236 | distinct (type, non-blank id) pairs never share a record file |
| Persister.FileStore.Put | src/main/java/de/greyshine/jsonpersister/JsonPersister.java:153 | writing a file sets that file and leaves every other file as it was |
| Persister.FileStore.Remove | src/main/java/de/greyshine/jsonpersister/JsonPersister.java:199 | deleting a file removes that file and leaves every other file as it was |
| Persister.ReadIn | src/main/java/de/greyshine/jsonpersister/JsonPersister.java:89-120 | null for a null class or id or a missing file; otherwise exactly what `fromJson` makes of the file's bytes: an object, null, or an exception |
| Persister.ReadAfterPut | src/main/java/de/greyshine/jsonpersister/JsonPersister.java:89-163 | reading after an upsert decodes exactly the bytes written |
| Persister.ReadAfterRemove | src/main/java/de/greyshine/jsonpersister/JsonPersister.java:89-120 | reading after a delete finds nothing |
| Persister.ReadOther | src/main/java/de/greyshine/jsonpersister/JsonPersister.java:89-120 | writing or deleting another file does not change what is read |
| Persister.ScanIdFieldsIff | src/main/java/de/greyshine/jsonpersister/JsonPersister.java:259-275 | the field stream succeeds iff exactly one `@Id` field remains and it is a non-static, non-final String |
| Persister.IdFieldOfIff | src/main/java/de/greyshine/jsonpersister/JsonPersister.java:249-283 | `getIdField` succeeds iff the class declares exactly one valid `@Id` field, returns that field, and otherwise throws `IllegalArgumentException` |
| Persister.JsonPersister.constructor | src/main/java/de/greyshine/jsonpersister/JsonPersister.java:46-68 | a new persister starts with an empty id-field cache over the given store |
| Persister.JsonPersister.SetIdProvider | src/main/java/de/greyshine/jsonpersister/JsonPersister.java:74-79 | null is rejected with `IllegalArgumentException` and leaves everything unchanged; otherwise the provider is replaced |
| Persister.JsonPersister.GetIdField | src/main/java/de/greyshine/jsonpersister/JsonPersister.java:249-283 | returns `IdFieldOf`, served from the cache when present, and caches only successes |
| Persister.JsonPersister.Upsert | src/main/java/de/greyshine/jsonpersister/JsonPersister.java:122-163 | null object or bad id field throws; a blank id is replaced by the provider's id, or throws `IllegalStateException` when that is null; on success the object's id field holds the returned id and exactly its record file holds its encoding |
| Persister.JsonPersister.Read | src/main/java/de/greyshine/jsonpersister/JsonPersister.java:89-120 | reading returns `ReadIn` on the current store |
| Persister.JsonPersister.Delete | src/main/java/de/greyshine/jsonpersister/JsonPersister.java:182-208 | true for a null class or id; otherwise true iff the record existed, which it then no longer does, with nothing else changed |
| Persister.JsonPersister.DeleteObject | src/main/java/de/greyshine/jsonpersister/JsonPersister.java:165-180 | false for a null object or a null id; id-field errors propagate; otherwise as `delete(class, id)` |
| Persister.JsonPersister.IsExisting | src/main/java/de/greyshine/jsonpersister/JsonPersister.java:238-247 | a null class throws `IllegalArgumentException`; true iff the id is not blank and its record file exists |
| Persister.ReadImpliesExisting | src/main/java/de/greyshine/jsonpersister/JsonPersister.java:238-247 | for a non-blank id, `read` returns an object or an exception only where `isExisting` is true, and is null wherever `isExisting` is false |
| Persister.ExistingButNull | src/main/java/de/greyshine/jsonpersister/JsonPersister.java:103-113 | the converse fails: a record file the decoder maps to null (an empty file) exists, yet `read` returns null |
| Persister.TypeDir | src/main/java/de/greyshine/jsonpersister/JsonPersister.java:214-216 | the type directory, when found, is a directory named after the type directly under the base |
| Persister.JsonFiles | src/main/java/de/greyshine/jsonpersister/JsonPersister.java:408 | kept iff it is a file whose lower-cased name ends in `.json` |
| Persister.ObjectFiles | src/main/java/de/greyshine/jsonpersister/JsonPersister.java:404-411 | a file is handed to the consumer exactly when it is a JSON file of one of the type directory's shard directories |
| Persister.TraversObjects | src/main/java/de/greyshine/jsonpersister/JsonPersister.java:398-412 | nothing for a null class or consumer; a missing type directory throws NPE; otherwise the consumer is folded over the JSON files of each shard directory in listing order |
| Persister.ConsumeJsonFiles | src/main/java/de/greyshine/jsonpersister/JsonPersister.java:407-409 | the inner `forEach` folds the consumer over exactly the JSON files |
| Persister.FoldAppend | src/main/java/de/greyshine/jsonpersister/JsonPersister.java:404-411 | consuming two shard directories one after the other is consuming their concatenation |
| Persister.JsonPersister.List | src/main/java/de/greyshine/jsonpersister/JsonPersister.java:313-365 | nothing for a null class; NPE for a missing type directory; otherwise the decisions' effect on the caller's state, with the first read or decision exception rethrown as unchecked |
| Persister.ListStopsOnceSet | src/main/java/de/greyshine/jsonpersister/JsonPersister.java:325-327 | once a decision returned null or an exception was stored, later files are ignored |
| Persister.UpperCaseSuffixSkipped | src/main/java/de/greyshine/jsonpersister/JsonPersister.java:329-332 | a file `X.JSON` passes the traversal filter but is skipped by `list`, since the case-sensitive `lastIndexOf` finds no ".json" |
| Persister.JsonPersister.GetList | src/main/java/de/greyshine/jsonpersister/JsonPersister.java:285-311 | null for a null class; NPE for a missing type directory; otherwise the read objects the decision accepts, in traversal order, or the first exception as unchecked |
| Persister.GetListFold | src/main/java/de/greyshine/jsonpersister/JsonPersister.java:293-308 | `getList`'s decision never quits `list`; it collects exactly the accepted objects, or ends on the first exception |
| BackupFormat.ModifiedUtf8Char | src/main/java/de/greyshine/jsonpersister/BackupHandler.java:47 | a character takes one byte iff it is in U+0001..U+007F, and then that byte |
| BackupFormat.ModifiedUtf8 | src/main/java/de/greyshine/jsonpersister/BackupHandler.java:60 | the encoding takes at least one byte per character |
| BackupFormat.AsciiEncoding | src/main/java/de/greyshine/jsonpersister/BackupHandler.java:60 | ASCII text encodes byte for byte |
| BackupFormat.U16 | src/main/java/de/greyshine/jsonpersister/BackupHandler.java:47 | the length prefix is two big-endian bytes holding the encoded length |
| BackupFormat.Frame | src/main/java/de/greyshine/jsonpersister/BackupHandler.java:47 | a `writeUTF` frame is the two-byte length followed by the modified UTF-8 bytes |
| BackupFormat.WriteUTF | src/main/java/de/greyshine/jsonpersister/BackupHandler.java:60 | `writeUTF` throws `UTFDataFormatException` iff the encoding exceeds 65535 bytes |
| BackupFormat.DecodeModifiedUtf8 | src/main/java/de/greyshine/jsonpersister/BackupHandler.java:114 | malformed input, including a surrogate outside a pair, is reported as `UTFDataFormatException` |
| BackupFormat.DecodeChar | src/main/java/de/greyshine/jsonpersister/BackupHandler.java:114 | the one-, two-, three- and six-byte (surrogate pair) encodings of a character decode back to it, whatever follows |
| BackupFormat.DecodeRoundTrip | src/main/java/de/greyshine/jsonpersister/BackupHandler.java:114 | decoding inverts the modified UTF-8 encoding of every string |
| BackupFormat.ReadUTFSpec | src/main/java/de/greyshine/jsonpersister/BackupHandler.java:105 | a `readUTF` on a non-empty stream always consumes at least one byte |
| BackupFormat.UtfRoundTrip | src/main/java/de/greyshine/jsonpersister/BackupHandler.java:47 | for any string whose encoding fits, `writeUTF` succeeds and `readUTF` returns the string and leaves the bytes that follow |
| BackupFormat.ReadUTF | src/main/java/de/greyshine/jsonpersister/BackupHandler.java:114 | the stream method reads exactly as `ReadUTFSpec` says |
| BackupFormat.BigEndianRoundTrip | src/main/java/de/greyshine/jsonpersister/BackupHandler.java:61 | big-endian bytes decode back to the value they encode |
| BackupFormat.LongRoundTrip | src/main/java/de/greyshine/jsonpersister/BackupHandler.java:122 | `readLong` returns a non-negative length written by `writeLong` and leaves the bytes that follow |
| BackupFormat.ReadLong | src/main/java/de/greyshine/jsonpersister/BackupHandler.java:122 | the stream method reads exactly as `ReadLongSpec` says |
| BackupFormat.Hex | src/main/java/de/greyshine/jsonpersister/BackupHandler.java:71 | `%064x` of a digest is two lower-case hex digits per byte |
| BackupFormat.HexIsAscii | src/main/java/de/greyshine/jsonpersister/BackupHandler.java:151 | the checksum text is ASCII, holds no `/`, and is never blank for a non-empty digest |
| Backup.FileTag | src/main/java/de/greyshine/jsonpersister/BackupHandler.java:59-60 | a file's tag is `F:/` followed by its path relative to the base |
| Backup.BackupVisit | src/main/java/de/greyshine/jsonpersister/BackupHandler.java:49-69 | directories are skipped; a file succeeds iff its tag fits `writeUTF` and its length equals its content, and then appends its record and feeds its content to the digest |
| Backup.WriterRun | src/main/java/de/greyshine/jsonpersister/BackupHandler.java:49-69 | when no handler call throws, the output is every record in walk order and the digest saw every content |
| Backup.RunCatchesNothing | src/main/java/de/greyshine/jsonpersister/util/Utils.java:417-437 | the traversal ends without a caught exception iff every visit succeeds |
| Backup.CheckedBackup | src/main/java/de/greyshine/jsonpersister/BackupHandler.java:32-85 | the corrected backup fails iff some handler call threw |
| Backup.CheckedBackupComplete | src/main/java/de/greyshine/jsonpersister/BackupHandler.java:32-85 | a successful corrected backup is header, all records, and the checksum of all contents; it succeeds whenever every file is writable |
| Backup.ParseEntry | src/main/java/de/greyshine/jsonpersister/BackupHandler.java:114-148 | each step of the read loop consumes input |
| Backup.Put | src/main/java/de/greyshine/jsonpersister/BackupHandler.java:124-133 | restoring a file sets that path to its bytes and keeps every other file |
| Backup.ApplyUntouched | src/main/java/de/greyshine/jsonpersister/BackupHandler.java:112-148 | a file no record names keeps its bytes, or stays absent |
| Backup.ApplyLastWins | src/main/java/de/greyshine/jsonpersister/BackupHandler.java:112-148 | when several records name one path, the last one decides its bytes |
| Backup.RestorableWritable | src/main/java/de/greyshine/jsonpersister/BackupHandler.java:49-69 | a file the reader accepts is one the writer can write |
| Backup.ParseRecord | src/main/java/de/greyshine/jsonpersister/BackupHandler.java:117-133 | the reader parses a written record back to its path and content |
| Backup.ScanRecord | src/main/java/de/greyshine/jsonpersister/BackupHandler.java:117-133 | reading a record restores that file, feeds its content, and goes on with the rest |
| Backup.ScanPieces | src/main/java/de/greyshine/jsonpersister/BackupHandler.java:112-148 | reading a sequence of records applies them in order and feeds all contents |
| Backup.ScanChecksum | src/main/java/de/greyshine/jsonpersister/BackupHandler.java:138-142 | a checksum line ends the loop carrying the hex text |
| Backup.ChecksumAccepted | src/main/java/de/greyshine/jsonpersister/BackupHandler.java:151-155 | the checksum of exactly the restored contents passes both checks |
| Backup.RestoreAfterHeader | src/main/java/de/greyshine/jsonpersister/BackupHandler.java:105-107 | the written header passes the version check and consumes only itself |
| Backup.RoundTrip | src/main/java/de/greyshine/jsonpersister/BackupHandler.java:32-162 | when every file is restorable, the corrected backup succeeds, and reading it back writes every file's bytes over the store, consumes the whole stream, and throws nothing |
| Backup.ApplyMirror | src/main/java/de/greyshine/jsonpersister/BackupHandler.java:112-149 | restoring the visits of a walk that lists exactly the files of a base directory overrides the files with that directory's files |
| Backup.StoreRoundTrip | src/main/java/de/greyshine/jsonpersister/BackupHandler.java:32-162 | the backup of the store's base directory, restored over any files, yields those files overridden by the store's files, with no exception and the stream consumed |
| Backup.RestoreOwnBackup | src/main/java/de/greyshine/jsonpersister/BackupHandler.java:32-162 | restoring the store's own backup over the store changes no file |
| Backup.TruncatedBackupExample | src/main/java/de/greyshine/jsonpersister/BackupHandler.java:49-69 | in the example tree the second file's handler call throws `UTFDataFormatException` |
| Backup.TruncatedBackupAccepted | src/main/java/de/greyshine/jsonpersister/BackupHandler.java:32-85 | as written, that backup is a well-formed stream holding only the first file, which the reader accepts without error |
| Backup.SizeMismatchDropped | src/main/java/de/greyshine/jsonpersister/BackupHandler.java:61-67 | as written, a file whose copied size differs from its reported length is written out, its exception is caught by the walk, which stops, and the stream still ends with the checksum of what was copied; the checked backup fails |
| Backup.BackupHandler.constructor | src/main/java/de/greyshine/jsonpersister/BackupHandler.java:28-30 | the handler keeps the persister it is given |
| Backup.BackupHandler.WriteBackup | src/main/java/de/greyshine/jsonpersister/BackupHandler.java:32-85 | for a listing of the persister's base directory: a null stream throws `IllegalArgumentException`; otherwise the output grows by header, records of the traversal until the first handler exception, and checksum, and nothing is thrown |
| Backup.BackupHandler.ReadBackup | src/main/java/de/greyshine/jsonpersister/BackupHandler.java:93-162 | a null stream does nothing; otherwise base-directory files, thrown exception and unread input are those of `RestoreFrom`, and the id-field cache and id provider are untouched |
| Backup.BackupHandler.RestoreEntries | src/main/java/de/greyshine/jsonpersister/BackupHandler.java:112-149 | the read loop restores files, feeds the digest, and stops exactly as `ScanEntries` says |
| Backup.BackupHandler.RestoreEntry | src/main/java/de/greyshine/jsonpersister/BackupHandler.java:114-148 | one loop pass consumes input as `ParseEntry` says and digests exactly the restored content |
| Backup.BackupHandler.CheckChecksum | src/main/java/de/greyshine/jsonpersister/BackupHandler.java:151-155 | the checks after the loop throw exactly the exception `Verdict` gives for the checksum line and the digested bytes |

## Left out

- Concurrency is not modelled: the `block` / `concurrentAccesses` gate, `Utils.wait`/`notify` and the `synchronized` sections. Every operation runs alone.
- Gson is a parameter:
  - encoding is a function from object state to bytes;
  - decoding is a function from class and bytes to a result;
  - `toString` of an object (used in the `IllegalStateException` message) is a `describe` function.
- SHA-256 is a parameter (`Sha256`). `MessageDigest.getInstance` cannot fail in the model.
- Reflection is abstract:
  - classes and fields are declarations (`ClassDecl`, `FieldDecl`);
  - `Class.forName` is a predicate on the type name;
  - field access is a map from field name to value.
- The default id provider (`UUID.randomUUID`) is a parameter that may return null.
- Persister.JsonPersister.constructor: the `Assert.notNull`/`mkdirs`/`Assert.isDirectory` checks on the base directory and canonicalisation are not modelled. The model starts from an existing base directory.
- Directory creation (`mkdirs`) and `FileOutputStream` failures, `Utils.writeFile` I/O errors and the unclosed input stream in `writeBackup` are not modelled. Writes always succeed.
- Path normalisation (`getAbsolutePath`, `getCanonicalPath`, `..` in ids) is not modelled. Paths are joined with `/`.
- `itemCounts` and all logging are left out. They only feed log output.
- Backup.BackupHandler.ReadBackup: the `additive` flag is accepted and ignored, as in the source. The version text after `v:` is not compared with `1.0`, as in the source.
- Backup.BackupHandler.ReadBackup: the input is an in-memory byte stream (`Streams.InStream`). Its `available()` is exact (some bytes are left) and its reads never fail. Java's `available()` is only an estimate: a socket, a pipe or a `SequenceInputStream` at a boundary can answer 0 while data remains. The `while (in.available() > 0)` loop then ends early, and `readBackup` throws `Bad checksum line: null` after restoring a prefix. A read that throws `IOException` would propagate unwrapped. `ReadBackup`, `Backup.RoundTrip` and `Backup.StoreRoundTrip` hold for streams whose `available()` is exact, such as `ByteArrayInputStream` and `FileInputStream`.
- Backup.BackupHandler.WriteBackup:
  - the traversal runs against a pure handler that collects the bytes, and the bytes are appended to the stream once it ends;
  - the model therefore appends the header after the walk rather than before it, which gives the same final stream;
  - exceptions from the stream itself are not modelled;
  - the `IOException` wrapping of non-I/O exceptions cannot arise, since travers swallows the handler's exceptions.
- BackupFormat.DecodeModifiedUtf8: a surrogate outside a high-low pair is reported as malformed, where Java's `readUTF` accepts it as a lone `char`. Strings here are sequences of Unicode scalar values and cannot hold a lone surrogate. `writeUTF` never writes one for such a string, so the round trip is unaffected.
- JavaLang.ToLowerCase: only the ASCII letters A to Z are mapped. Java's `toLowerCase` maps all of Unicode and can change a string's length (U+0130 becomes two characters). The `.json` suffix test of `list` and `traversObjects` looks only at characters that must lower-case to `.json`.
- JavaLang.EqualsIgnoreCase: only the ASCII letters are folded. It is used only to compare a checksum line with the lower-case hex digest.
- ShardHash.GetHashOfString: the alphabet is a string of Unicode scalar values, where Java indexes the UTF-16 units of `toCharArray()`. An alphabet holding a supplementary character (two units in Java, one character here) therefore gives a different length and different codes, and a result holding a lone surrogate unit cannot arise. The store's own alphabet is ASCII, where the two agree.
- Persister.ShardCode: the store computes shard codes with the corrected hash of the first finding below. Where Java's `getHash` overflows and throws `ArrayIndexOutOfBoundsException` out of `read`, `upsert`, `delete` and `isExisting`, the model yields a code instead. This can happen with the store's 36-letter alphabet for ids of roughly 2^20 UTF-8 bytes (from about 2^20 - 112 bytes, depending on the previous code character). Persister.ShardCodeAgrees shows the two agree everywhere else.
- FileTree.Travers: a file root's second call on its null listing is modelled as `NullPointerException` with an empty message. The same holds for the `Stream.of(null)` of a missing type directory in `list` and `traversObjects`.
- Persister.JsonPersister.List: the unused `results` list is not modelled. Decision functions are total functions that may return null (`None`) or throw.
- Persister.TraversObjects: the base directory's listing is a parameter, `view`, as it is for `list` and `getList`. Each listed `.json` file is read from the store by its id, so a listing that names a file the store lacks reads as null, as `readIn` does for a missing file. These operations do not require the listing to match the store, while `writeBackup` does (`Backup.Mirrors`), since its stream is built from the listing alone.
- Persister.TraversObjects: consumers are total functions. The Java consumers in the core never throw, since `list` stores its exceptions.
- `Utils.delete`, `Utils.listFiles`, the other `Utils` helpers, `BadVersionException` and the tests are not part of this model.

## Findings

| source | as written | input that shows it | evidently intended | confidence | as-written member | corrected member |
|---|---|---|---|---|---|---|
| src/main/java/de/greyshine/jsonpersister/util/Utils.java:342-347 | `Math.abs(idxAlphabet) % inAlphabet.length` is negative when the 32-bit product is `Integer.MIN_VALUE`, and the array index then throws | 255 zero bytes then the byte -128, `inLen` 1, an alphabet of three U+FF00 characters: iteration 255 multiplies -128·256·13·65536 = -13·2³¹, which wraps to `Integer.MIN_VALUE`, and the index is -2 | an index always in `[0, alphabet length)`, so `getHash` never throws for non-degenerate input | not executed | ShardHash.HashCrashExample | ShardHash.HashFixedShape |
| src/main/java/de/greyshine/jsonpersister/BackupHandler.java:49-85 | travers catches the handler's exception and stops silently. `writeBackup` then still writes the checksum of the files done so far and reports success, so the `copy error; unequal size` and `writeUTF` failures never reach the caller | a file that changes size while the backup runs, so the bytes copied differ from `file.length()` (Backup.SizeMismatchDropped); or a type directory `T` holding `a.json` and then a file whose name is 65535 or more characters long, whose tag fails `writeUTF` | a backup that cannot include every file fails instead of producing a shorter stream the reader accepts | not executed | Backup.TruncatedBackupAccepted | Backup.CheckedBackupComplete |
