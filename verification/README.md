# wyag (C++) object codecs, config file and command helpers in Dafny

This project models the byte-level core of a small re-implementation of git
("write yourself a git", in C++). Five parts are modelled.

- **Commit and tag objects.** `kvlm.dfy` covers the key-value-list-with-message codec.
  - `kvlm_parse` is a recursive scanner over the raw bytes. It has an inner `while (true)` loop that finds the end of a value.
  - `kvlm_serialize` is the nested loop that writes the header map back out.
  - `replace_all` is the in-place search-and-replace that both of them use to escape and unescape continuation lines.
  - The `GitCommit` object has `deserialize`, `serialize` and `get_value`.
- **Tree objects.** `tree.dfy` covers the entry codec.
  - `serialize` writes `mode ' ' path NUL` and then the object id as raw bytes.
  - `tree_parse_one` reads one entry and turns up to 20 digest bytes into lower-case hex.
  - `tree_parse` reads entries until the cursor reaches the end.
  - The `GitTree` object has `deserialize` and `get_items`.
- **Blob objects.** `blob.dfy` covers a byte buffer that `deserialize` replaces and `serialize` returns.
- **The `.ini` configuration parser.** `config.dfy` covers the following.
  - `trim` strips leading and trailing whitespace.
  - `read` handles a line at a time: section headers, and `key=value` entries that never overwrite.
  - `get` and `set` read and update the map.
  - `write` emits the entries sorted by (section, key), with a `[section]` line at each change of section.
- **Command-layer algorithms from `main.cpp`.** `commands.dfy` covers four of them.
  - The option loop of `hash-object`.
  - `log_graphviz`, the depth-first walk over commit parents with a shared visited set.
  - `show_ref`, which flattens the reference tree into lines.
  - The listing branch of `tag`, including the `refs/tags/` filter over packed references.

Supporting modules:

- `bytes.dfy` defines bytes, `std::find` and `std::string::find`.
- `objects.dfy` defines the four object kinds and their format tags.
- `ordering.dfy` defines the unsigned lexicographic order that `std::map` and `std::sort` use, and the ascending enumeration of a set of keys.

Printing is modelled as returning the printed lines. A file the configuration parser reads or writes is its bytes: `write` ends every line with a newline, and `read` splits the bytes at each newline as `std::getline` does. The object store that `log_graphviz` consults is a map from object id to (format tag, parent ids).

In three places the code does not do what a git object codec is expected to do. The model follows the code:

- **The commit serializer writes no newline between header entries.** So `serialize(deserialize(x)) == x`, the round trip a commit codec should offer, does not hold. `Kvlm.ReserializeRunsOn` shows that every commit made of two one-line headers, a blank line and a message comes back two bytes short: `a x\nb y\n\nm` becomes `a xb y\nm`. `Kvlm.SerializedNotInjective` shows that such a commit and the one whose single header `a` has the value `xb y` parse to different maps but serialize to the same bytes.
- **`tree_parse_one` reads up to 20 digest bytes, not exactly 20.** It reads fewer when the buffer ends first, and the entry's id is then shorter.
- **`serialize` converts any hex id, not only a 40-digit one.** It takes two digits at a time, and a lone last digit becomes one byte of its own.

## Model

| member | source | states |
|---|---|---|
| Bytes.Find | GitCommit.cpp:56-65 | a position found holds the byte and lies at or after the search start |
| Bytes.FindFirstOccurrence | GitCommit.cpp:56-65 | `std::find` returns the first occurrence, and `end()` only when the byte does not occur |
| Bytes.FindSeq | GitCommit.cpp:37 | a position found is an occurrence of the pattern at or after the start |
| Bytes.FindSeqFirst | GitCommit.cpp:37 | `std::string::find` returns the first occurrence, and `npos` only when there is none |
| Ordering.LessBytesIsOrder | GitCommit.cpp:132 | the unsigned byte-wise comparison `std::map<std::string, …>` uses is a strict total order |
| Ordering.LessPairIsOrder | ConfigParser.cpp:75 | the comparison of (section, key) pairs `std::sort` uses is a strict total order |
| Ordering.SortedSeqAscending | GitCommit.cpp:132 | map iteration visits keys in strictly ascending order |
| Ordering.SortedSeqMembers | GitCommit.cpp:132 | map iteration visits every key exactly once and nothing else |
| Ordering.SortKeys | GitCommit.cpp:132 | the enumeration loop produces exactly the ascending order of the key set |
| Ordering.SortedBytesSpec | GitCommit.cpp:132 | the header keys are visited all, once each, in ascending order |
| Ordering.SortedPairsSpec | ConfigParser.cpp:70-75 | the collected config keys, sorted, are all the keys once each, in ascending order |
| Ordering.SortedPairsDistinct | ConfigParser.cpp:70-75 | the sorted config keys hold no duplicates |
| Ordering.SortBytes | GitCommit.cpp:132 | computes the ascending enumeration of a set of byte strings |
| Ordering.SortPairs | ConfigParser.cpp:70-75 | computes the ascending enumeration of a set of (section, key) pairs |
| Kvlm.ReplaceAll | GitCommit.cpp:32-44 | the loop returns `Replaced`: every occurrence of `before` replaced by `after` left to right, with no rescanning of inserted text |
| Kvlm.ReplaceStep | GitCommit.cpp:40-41 | one replacement moves the found occurrence, rewritten, into the finished prefix, and the search resumes just after it |
| Kvlm.ReplacedFromFound | GitCommit.cpp:37-41 | at the next occurrence the result is the text before it, then `after`, then the rest rewritten |
| Kvlm.ReplacedFromNone | GitCommit.cpp:38-43 | with no occurrence left, the rest is copied unchanged |
| Kvlm.EscapeByReplaceAll | GitCommit.cpp:150 | `replace_all(v, "\n", "\n ")` puts a space after every newline |
| Kvlm.UnescapeByReplaceAll | GitCommit.cpp:109 | `replace_all(v, "\n ", "\n")` drops the space after every newline |
| Kvlm.UnescapeEscape | GitCommit.cpp:109 | unescaping what the serializer escaped gives back every value exactly |
| Kvlm.EscapedNewlinesContinue | GitCommit.cpp:150 | in an escaped value every newline is followed by a space, so the parser reads it as a continuation |
| Kvlm.EscapeNoNewline | GitCommit.cpp:150 | a value without newlines is written unchanged |
| Kvlm.ValueEnd | GitCommit.cpp:91-103 | the value loop ends inside the buffer, no earlier than the first newline after its start |
| Kvlm.ValueEndStep | GitCommit.cpp:94-102 | one round of the value loop either stops at the value's end or moves to a newline followed by a space, with the same end ahead |
| Kvlm.ValueEndAt | GitCommit.cpp:92-103 | the value ends at the first newline not followed by a space |
| Kvlm.ValueLoop | GitCommit.cpp:91-103 | the `while (true)` loop leaves `ending` at `ValueEnd` |
| Kvlm.HeaderShape | GitCommit.cpp:74 | outside the base case both a space and a newline are found, and the space comes first |
| Kvlm.HeaderAt | GitCommit.cpp:86-123 | the next call starts strictly after the current one, so parsing terminates |
| Kvlm.ReadHeader | GitCommit.cpp:86-109 | the key is the bytes up to the space; the value runs to the loop's end and is unescaped; the next call starts after it |
| Kvlm.HeaderAtDef | GitCommit.cpp:86-109 | the header's key, unescaped value and next start, in terms of the space and the value end |
| Kvlm.HeaderFacts | GitCommit.cpp:86-123 | a header is read, its value appended, and parsing continues after it inside the buffer |
| Kvlm.AppendExtends | GitCommit.cpp:111-121 | a repeated key gets the value appended to its list; a new key gets a one-element list; nothing else changes |
| Kvlm.ParseExtends | GitCommit.cpp:111-123 | parsing only appends: every key and every stored value survives, at the front of its list |
| Kvlm.KvlmParse | GitCommit.cpp:46-124 | the recursive scanner fills the map as `Parse` says, for every input where the C++ stays inside the buffer |
| Kvlm.DefinedNext | GitCommit.cpp:123 | after a header the recursive call starts inside the buffer |
| Kvlm.ParseMessage | GitCommit.cpp:56-81 | with no space, no newline, or a newline before the first space, the bytes after the cursor become the message under the empty key, which an earlier message keeps |
| Kvlm.ParseHeader | GitCommit.cpp:86-123 | a key up to the first space, a value up to the first newline not followed by a space with "\n " unescaped, appended under the key, then parsing resumes after that newline |
| Kvlm.HeaderAtIs | GitCommit.cpp:86-109 | for a header laid out in the bytes, the parser reads exactly that key, value and next start |
| Kvlm.ParseStep | GitCommit.cpp:111-123 | one header step of `kvlm_parse`: append, then continue at the next start |
| Kvlm.ParseStepAt | GitCommit.cpp:111-123 | the header step for a header already read |
| Kvlm.SerializedEndsWithMessage | GitCommit.cpp:159-167 | the serialized bytes end with one newline and then the message values concatenated |
| Kvlm.UnescapeNoNewline | GitCommit.cpp:109 | a value without newlines is read unchanged |
| Kvlm.ParseLaidOut | GitCommit.cpp:86-123 | a header line with a plain key and a one-line value, not followed by a space, is appended as it stands and parsing resumes after its newline |
| Kvlm.ParseMessageAt | GitCommit.cpp:56-81 | a newline at the cursor makes the rest of the bytes the message, unless one is already stored |
| Kvlm.ParseLineThenMessage | GitCommit.cpp:46-124 | a header line followed by a blank line: the header is appended and the rest becomes the message |
| Kvlm.ParseTwoHeaders | GitCommit.cpp:46-124 | `a x\nb y\n\nm` (distinct plain keys, one-line values, any message) parses to `{a: [x], b: [y], "": [m]}` |
| Kvlm.ParseOneHeader | GitCommit.cpp:46-124 | `a v\n\nm` (plain key, one-line value) parses to `{a: [v], "": [m]}` |
| Kvlm.SerializeTwoHeaders | GitCommit.cpp:126-169 | `{a: [x], b: [y], "": [m]}` with `a < b` and one-line values serializes to `a xb y\nm`, with no newline between the entries |
| Kvlm.SerializeOneHeader | GitCommit.cpp:126-169 | `{a: [v], "": [m]}` with a one-line value serializes to `a v\nm` |
| Kvlm.ReserializeRunsOn | GitCommit.cpp:142-156 | as written, serialize after deserialize returns every two-header commit `a x\nb y\n\nm` two bytes short, as `a xb y\nm` when `a < b`, so it is never the input |
| Kvlm.SerializedNotInjective | GitCommit.cpp:142-156 | as written, `a x\nb y\n\nm` and `a xb y\n\nm` parse to different maps but serialize to the same bytes, so no parse can recover both |
| Kvlm.MessageInAll | GitCommit.cpp:131-140 | after the key loop, `message` holds the list under the empty key, or nothing when it is absent |
| Kvlm.AppendEntries | GitCommit.cpp:141-156 | for each value in list order it appends the key, a space and the escaped value, with no separator |
| Kvlm.AppendAll | GitCommit.cpp:159-167 | appends the message values one after another |
| Kvlm.Commit.constructor | GitCommit.cpp:5-8 | a new commit has format tag "commit" and no headers |
| Kvlm.Commit.Deserialize | GitCommit.cpp:16-21 | all previous headers are dropped, then the data is parsed from offset 0 |
| Kvlm.Commit.GetValue | GitCommit.cpp:23-30 | the stored list for a present key, the empty list for an absent one |
| Kvlm.Commit.Serialize | GitCommit.cpp:126-169 | the headers of every non-empty key in ascending order and each value in list order, then a newline, then the message |
| Tree.LowerDigit | GitTree.cpp:69-71 | `std::hex` prints a lower-case hex digit whose value is the given nibble |
| Tree.LowerDigitOfValue | GitTree.cpp:69-71 | a lower-case hex digit is printed as itself |
| Tree.HexPairOfChunk | GitTree.cpp:26 | two lower-case digits are the zero-padded printing of the byte they read as |
| Tree.PairOfHexPair | GitTree.cpp:26 | reading back the two digits printed for a byte gives that byte |
| Tree.ChunkValue | GitTree.cpp:26-27 | one or two hex digits read as a value below 256, so `& 0xff` changes nothing |
| Tree.HexOfShape | GitTree.cpp:65-74 | the id text has two lower-case hex digits per digest byte |
| Tree.ShaBytesOfHex | GitTree.cpp:24-27 | decoding the id text tree_parse_one builds gives back the digest bytes |
| Tree.HexOfShaBytes | GitTree.cpp:24-27 | for lower-case hex text of even length, printing the decoded bytes gives back the text |
| Tree.ShaBytesLength | GitTree.cpp:24-28 | serialize writes one byte per two hex digits, rounding up |
| Tree.ShaBytesStep | GitTree.cpp:24-28 | each round of the digest loop appends the byte of the next chunk |
| Tree.AppendDigest | GitTree.cpp:24-28 | the digest loop appends exactly the decoded id |
| Tree.ParseOne | GitTree.cpp:39-77 | a successful read returns a position after the start and within the buffer, so `tree_parse` terminates |
| Tree.TreeParseOne | GitTree.cpp:39-77 | the iterator-advancing code computes `ParseOne`, the "Not a tree object" exception included |
| Tree.HexOfStep | GitTree.cpp:67-74 | each round of the hex loop appends the two digits of one more byte |
| Tree.TreeParse | GitTree.cpp:79-92 | the loop computes `Parse`: the entries in buffer order, or the exception |
| Tree.ParseOneFails | GitTree.cpp:44-56 | the exception is raised exactly when no space follows the cursor, or no NUL follows that space |
| Tree.ParseOneEntry | GitTree.cpp:47-76 | the mode holds no space, the path holds no NUL, the id is the lower-case hex of the up to 20 bytes after the NUL, and the next position is just past them |
| Tree.ParseOneBytes | GitTree.cpp:47-76 | the entry read, written back as serialize writes it, is exactly the bytes consumed |
| Tree.ParseOneDef | GitTree.cpp:44-76 | once both terminators are found, the entry and the next position as the code computes them |
| Tree.ParseOneOf | GitTree.cpp:39-77 | a mode, a space, a path, a NUL and 20 digest bytes are read as that entry, with the digest as hex |
| Tree.ParseOneLeaf | GitTree.cpp:39-77 | an entry serialize wrote is read back unchanged, with the cursor moved past it |
| Tree.ParseOneFront | GitTree.cpp:39-77 | a well-formed entry at the front of the remaining bytes is read, and the rest follows it |
| Tree.ParseFromStep | GitTree.cpp:85-90 | one round of `tree_parse` appends the entry read and moves to the returned position |
| Tree.TreeBytesAppend | GitTree.cpp:18-29 | serializing a concatenation of entry lists concatenates their bytes |
| Tree.ParseFromReserializes | GitTree.cpp:79-92 | whatever `tree_parse` reads from a position, serialize writes back as those bytes |
| Tree.ParseReserializes | GitTree.cpp:14-31 | whenever `tree_parse` succeeds, serializing its entries reproduces the input exactly |
| Tree.ParseFromSuffix | GitTree.cpp:79-92 | well-formed entries written from a position are read back in order after those already read |
| Tree.ParseTreeBytes | GitTree.cpp:14-31 | entries with no space in the mode, no NUL in the path and 40 lower-case hex digits survive serialize then parse, in order |
| Tree.Tree.constructor | GitTree.cpp:9-12 | a new tree has format tag "tree" and no entries |
| Tree.Tree.Serialize | GitTree.cpp:14-31 | writes each entry in list order: mode, space, path, NUL, then the decoded id |
| Tree.Tree.Deserialize | GitTree.cpp:33-37 | on success the entry list is replaced wholesale by what `tree_parse` reads, whose ids serialize accepts and which serialize writes back as the data; on the exception it is left as it was |
| Tree.Tree.GetItems | GitTree.cpp:94-98 | returns the entry list unchanged |
| Blob.Blob.constructor | GitBlob.cpp:3-5 | a new blob has format tag "blob" and an empty buffer |
| Blob.Blob.Serialize | GitBlob.cpp:8-12 | returns the stored buffer and changes nothing |
| Blob.Blob.Deserialize | GitBlob.cpp:14-18 | the stored buffer becomes the data, whatever it held before |
| Blob.Reserialize | GitBlob.cpp:9-18 | serialize after `deserialize(d)` returns `d`, and a second serialize returns it again |
| Config.SkipSpace | ConfigParser.cpp:9-10 | the leading whitespace run ends at a non-space byte or the end |
| Config.SkipSpaceBack | ConfigParser.cpp:9-10 | the trailing whitespace run starts just after a non-space byte or at the lower bound |
| Config.Trim | ConfigParser.cpp:7-11 | the result has no whitespace at either end and is `s` with only a whitespace prefix and suffix removed, interior unchanged |
| Config.TrimUnique | ConfigParser.cpp:7-11 | the only way to strip `s` to a string without whitespace at its ends is `trim` |
| Config.FirstNonSpace | ConfigParser.cpp:9 | the leading whitespace run has a single end |
| Config.LastNonSpace | ConfigParser.cpp:9 | the trailing whitespace run has a single start |
| Config.TrimIdempotent | ConfigParser.cpp:7-11 | trimming twice is trimming once |
| Config.TrimOfTrimmed | ConfigParser.cpp:7-11 | a string without whitespace at its ends is its own trim |
| Config.Insert | ConfigParser.cpp:60-61 | `std::map::insert` adds the key, keeps every present value, and stores the new value only for an absent key |
| Config.ReadLinesPrefix | ConfigParser.cpp:21-43 | reading one more line applies that line's step to the state so far |
| Config.ReadLinesSnoc | ConfigParser.cpp:21-43 | reading lines followed by a line is reading the lines and then that line |
| Config.ReadLinesAppend | ConfigParser.cpp:21-43 | reading one file's lines in two parts is reading them in one go: the section and values reached by the first part are where the second part starts |
| Config.ReadLinesKeeps | ConfigParser.cpp:56-62 | read never overwrites: keys are only added, and a present key keeps its value |
| Config.ReadLinesTrimmed | ConfigParser.cpp:38-40 | every key and value read is trimmed |
| Config.ReadLineHeader | ConfigParser.cpp:24-32 | a trimmed line starting with '[' selects the text up to the first ']' as the section; the values are untouched |
| Config.ReadLineUnclosed | ConfigParser.cpp:24-32 | a '[' line without ']' changes nothing |
| Config.ReadLineEntry | ConfigParser.cpp:33-42 | another line is split at its first '=', and the trimmed key and value are inserted under the current section |
| Config.ReadLineIgnored | ConfigParser.cpp:33-42 | a line without '=' changes nothing |
| Config.ReadLinesBeforeHeader | ConfigParser.cpp:20-40 | before any header line the section is "" and every entry read lands in section "" |
| Config.WriteLinesPrefix | ConfigParser.cpp:77-85 | each key adds a header when its section differs from the last announced one, then its `key=value` line |
| Config.SectionLinesAfter | ConfigParser.cpp:79-84 | the lines for one key are its header, when the section changes, followed by the entry |
| Config.WriteLinesNoEmptyHeader | ConfigParser.cpp:76-84 | entries of section "" written first get no header line |
| Config.WriteLinesCount | ConfigParser.cpp:77-85 | one line per entry plus one header per change of section |
| Config.ReadHeader | ConfigParser.cpp:82 | the header line written for a section selects that section when read |
| Config.EntryLineTrimmed | ConfigParser.cpp:84 | a `key=value` line written for a trimmed key and value is its own trim |
| Config.ReadEntry | ConfigParser.cpp:84 | the `key=value` line written for a well-formed entry inserts that entry when read |
| Config.ReadSectionLines | ConfigParser.cpp:79-84 | the lines written for one entry, read, select its section and insert it |
| Config.RestrictSnoc | ConfigParser.cpp:77 | listing one more distinct key adds exactly that entry |
| Config.ReadWriteLines | ConfigParser.cpp:64-88 | reading the lines write emits for distinct keys of well-formed entries (single-line section, key and value; no ']' in the section; a trimmed key with no '=' that does not start with '['; a trimmed value) rebuilds exactly those entries |
| Config.SortedKeysIn | ConfigParser.cpp:84 | every sorted key is in the map, so `m_values.at` never throws |
| Config.WriteThenRead | ConfigParser.cpp:64-88 | a well-formed map's written lines, read into an empty parser, give that map again |
| Config.FileLinesOfBytes | ConfigParser.cpp:21 | lines without newlines, each ended by a newline in the file, are split by `getline` into those same lines |
| Config.WriteLinesSingle | ConfigParser.cpp:77-85 | for well-formed entries no written line holds a newline |
| Config.SectionLinesSingle | ConfigParser.cpp:79-84 | the header and `key=value` line of a well-formed entry hold no newline |
| Config.WriteThenReadFile | ConfigParser.cpp:13-88 | the file bytes write produces for a well-formed map, read back with `getline` into an empty parser, give that map again |
| Config.Parser.constructor | ConfigParser.h:11-21 | a new parser holds no values |
| Config.Parser.Get | ConfigParser.cpp:47-54 | the stored value, or "" when the (section, key) pair is absent |
| Config.Parser.Set | ConfigParser.cpp:56-62 | stores the value only when the pair has none yet |
| Config.Parser.Read | ConfigParser.cpp:13-45 | the map after reading is `ReadLines` from section "" over the lines, starting from the earlier values |
| Config.Parser.Write | ConfigParser.cpp:64-88 | the lines emitted are the whole file `Written` for the current values |
| Commands.ParseHashObject | main.cpp:66-89 | the option loop decides `HashObjectArgs`: defaults "blob" and no write, "-w", and "-t" only with an argument after it |
| Commands.NextOption | main.cpp:72-81 | each option the loop passes moves it forward, and not past the end |
| Commands.OptionsFile | main.cpp:70-89 | a file is hashed exactly when the loop reaches an argument that is not an option, and the file name is that argument |
| Commands.OptionsWrite | main.cpp:70-86 | the file is written exactly when write was already chosen or the loop passes a "-w" |
| Commands.OptionsType | main.cpp:70-86 | the type is the one chosen before (at first "blob") when the loop passes no "-t" with an argument after it, and otherwise the argument of the last such "-t" |
| Commands.HashObjectNoFile | main.cpp:103-108 | with no argument after the command name the usage path is taken |
| Commands.HashObjectLoneType | main.cpp:77-89 | a trailing lone "-t" is the file name, hashed as a blob |
| Commands.Visit | main.cpp:112-148 | the visited set only grows and contains the sha afterwards; the status is 0 or 1 |
| Commands.VisitParents | main.cpp:139-145 | the parent loop only grows the visited set; the status is 0 or 1 |
| Commands.VisitEdges | main.cpp:139-141 | every edge printed goes from a commit this walk visited first to one of its parents |
| Commands.VisitParentsEdges | main.cpp:139-145 | every edge printed by the parent loop starts at this commit or at a commit newly visited |
| Commands.VisitComplete | main.cpp:112-148 | a walk with status 0 has visited every parent of every commit it expanded, and printed an edge to each |
| Commands.VisitParentsComplete | main.cpp:139-145 | a parent loop with status 0 has visited every parent and printed its edge |
| Commands.EdgeLines | main.cpp:141 | one line `c_<sha> -> c_<parent>;` per edge, in order |
| Commands.EdgeLinesAppend | main.cpp:139-145 | the lines for two runs of edges are the lines of each, in order |
| Commands.VisitParentsStep | main.cpp:139-145 | one round of the parent loop: edge, walk of the parent, then the rest unless it failed |
| Commands.GraphWalk.constructor | main.cpp:161 | a walk starts with an empty visited set and nothing printed |
| Commands.GraphWalk.LogGraphviz | main.cpp:112-148 | status, visited set and printed lines are those of `Visit`; a seen sha prints nothing, a missing or non-commit object fails with 1 |
| Commands.ShowRef | main.cpp:284-314 | returns 0 and prints `ShowRefs`: the names in ascending order, subtrees under `prefix/name` and leaves as optional "hash ", "prefix/" and the name |
| Commands.ShowNamesStep | main.cpp:289-311 | one more name adds that name's lines after the earlier ones |
| Commands.ShowRefsPrefixed | main.cpp:293-309 | without hashes, every line listed under a non-empty prefix starts with "prefix/" |
| Commands.ShowNamesPrefixed | main.cpp:293-309 | the same for the lines of any list of names |
| Commands.ShowRefsFlat | main.cpp:300-311 | a node whose references are all leaves lists exactly its names, in ascending order |
| Commands.ShowNamesFlat | main.cpp:300-311 | the leaves named, without hash or prefix, print as their names |
| Commands.FoundAtStart | main.cpp:359 | `find("refs/tags/") == 0` holds exactly when the name starts with "refs/tags/" |
| Commands.PackedTagNamesOrder | main.cpp:355-365 | the i-th listed name is the i-th packed name under "refs/tags/" with those 10 bytes stripped: one per such entry, in their order, and nothing else |
| Commands.SelectsKeep | main.cpp:359-363 | a last packed entry under "refs/tags/" adds its stripped name at the end of the listing |
| Commands.SelectsSkip | main.cpp:359-363 | a last packed entry elsewhere adds nothing |
| Commands.CmdTag | main.cpp:336-368 | returns 0; with more than two arguments prints nothing; otherwise the "tags" subtree without hashes, then the packed tags |

## Left out

- SHA-1 hashing, zlib compression, the object store, reference resolution and `tree_checkout` are left out. They are either foreign primitives or not defined in the modelled files.
- `log_graphviz` takes the object store as a parameter: a map from object id to format tag and parent ids.
- `cmd_tag` takes the reference tree from `ref_list` and the packed references from `packed_ref_list` as parameters.
  - The packed references are a sequence of (name, id) pairs in the order the map hands them out.
- Output streams are modelled as returned lines, without the line terminator.
  - Error messages on `std::cerr` are not modelled; only the status they go with is.
- `hash-object` after the option loop is not modelled. That covers opening the file, hashing it through the object store, printing the id or "File not found", and the usage text. The model returns what the loop decided: usage, or (type, write flag, file name).
- `cmd_show_ref`, `cmd_log` and the rest of `main.cpp` are not modelled. Of `cmd_log`, only the empty visited set it passes in is kept, as `GraphWalk`'s constructor.
- `ConfigParser::read` and `write` open files. A file that cannot be opened acts like an empty file on read; on write nothing is written, and the model does not capture that failed open, because `Parser.Write` returns the lines that would be written. `Parser.Read` takes the lines `getline` returns (`FileLines` of the file's bytes), and `Parser.Write` returns the lines whose bytes (`FileBytes`) are the file.
- Config.WriteThenRead: the round trip needs every section, key and value to hold no newline. `write` would emit such a value as several lines, and `read` would take them apart, so a multi-line value does not come back.
- `trim`'s `std::regex` is modelled as stripping the C-locale whitespace bytes (space, tab, newline, vertical tab, form feed, carriage return) from both ends.
- Undefined behaviour becomes a precondition in three places:
  - `kvlm_parse` reads outside the buffer when a call starts at its end, and when a header's terminating newline is the last byte. `Defined` excludes those inputs.
  - serialize requires hex ids. On other two-byte chunks `std::stoul` either throws (nothing converts, as in "gg") or silently reads a different value (it skips leading space, takes a sign and stops at the first non-digit: "1g" is 1, " f" is 15, "-1" is 0xff after `& 0xff`). Every entry list `tree_parse` returns meets this requirement (`Tree.ParseReserializes`, `Tree.Tree.Deserialize`).
  - In the specification functions a non-hex digit reads as 0, which the callers never reach.
- Tree.Tree.Deserialize: the "Not a tree object" exception becomes a `false` result that leaves the entry list unchanged. The exception's propagation to callers is not modelled.
- Commands.ShowRef: the recursion's termination is shown through a ghost `GitRef` whose `subref` map is the one listed. The C++ function receives only the map.
- Kvlm.Commit.Serialize: this is the serializer as written, with no separator between header entries. It is not claimed to round-trip through `Deserialize`: `Kvlm.ReserializeRunsOn` shows it fails for every commit with two one-line headers, and `Kvlm.SerializedNotInjective` shows it merges inputs that parse differently, so no deserializer can undo it.
- The C++ class hierarchy (`GitObject` and its virtual `serialize`/`deserialize`) is modelled as one Dafny class per object kind, each carrying its format tag. The `GitTag` constructor is not part of this model; the tag kind appears only as its format tag.
- Integer widths (`size_t`, `int` cursors) are unbounded here; buffers larger than `int` can index are not considered.
