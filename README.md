# ICC Upload & Shorten, modelled in Dafny

ICC Upload & Shorten is a YOURLS plugin. It uploads a file from the admin
page and creates a short link for it in one step. The file goes either to a
directory on the server ("local" storage) or to an AWS S3 bucket.

The browser cuts the file into 2 MiB slices and posts them one by one. The
server stores each slice as `part_<index>` in a scratch directory
`icc_temp_<upload id>`. A final request joins the parts, in the order PHP's
natural sort puts their names in, into the declared file name: ascending
index, with any negative index before the others. The joined file is then published:
- local storage moves it into the share directory under the first free name
  `name.ext`, `name.2.ext`, `name.3.ext`, …;
- S3 storage sends it to the bucket, with a `public-read` ACL unless ACLs are
  disabled, and then deletes the joined file.

In both cases YOURLS is then asked for a short link to the published URL.
Scratch directories more than 24 hours old are swept away when the page
loads, and on demand from a diagnostics button.

The admin page also offers:
- the settings form;
- a local file manager, paged 20 files at a time;
- an S3 file manager with First/Previous/Next links that carry a history of
  continuation tokens;
- delete buttons in both managers.

The model is one Dafny module per part of `plugin.php`:

| module | models |
|---|---|
| `Text` | the PHP string functions the plugin relies on: `rtrim`, `trim`, `strtolower`, `substr`, `intval`, `explode`/`implode`, `basename`, integer-to-string |
| `Paths` | how a path string built by concatenation resolves to a sequence of entry names |
| `Files` | the filesystem as a `class FileSystem` whose `nodes` map paths to files, directories and links, plus the PHP file functions and their failure conditions |
| `Slicing` | the browser's slicing of the file into chunks |
| `TempSpace` | `icc_upload_and_shorten_handle_chunk`: upload-id sanitising, the scratch directory, storing `part_<n>` |
| `Assembly` | `icc_upload_and_shorten_handle_finish` (glob, natural sort, append, unlink, `rmdir`) and the AJAX dispatch |
| `Naming` | `pathinfo` and the `convert_filename` policies |
| `Publish` | `icc_upload_and_shorten_process_upload`: configuration gates, collision probe, local move or S3 put, link request |
| `Sweep` | `icc_rrmdir`, the automatic sweep and the manual-cleanup diagnostics |
| `Admin` | settings save, local and S3 delete, local pagination, S3 history links |
| `Wrappers` | `Option` |

These outside inputs are parameters:
- the clock;
- nonce checks and the logged-in check;
- `is_writable`;
- the AWS client and the outcome of `putObject`;
- the results of `str_shuffle` and `md5`;
- the short URL YOURLS returns;
- the system temporary directory.

Methods that change files take the `FileSystem` object. Their `ensures`
give the new `nodes` as a function of the old ones. Lemmas then prove the
properties the plugin relies on about those functions:
- the slice/store/assemble round trip;
- exactly-the-expired-directories for the sweeps;
- first-free for the collision probe;
- idempotence of the name rewriting;
- Next-then-Previous for the S3 history.

## Model

| member | source | states |
|---|---|---|
| Text.RTrim | plugin.php:64 | `rtrim($s, c)` is the longest prefix of `s` not ending in `c`, and every character it drops is `c` |
| Text.Trim | plugin.php:909 | the trimmed string neither starts nor ends with a whitespace character of `trim` |
| Text.TrimIdempotent | plugin.php:565-571 | trimming an already trimmed value changes nothing |
| Text.Lower | plugin.php:910 | `strtolower` keeps the length and lower-cases each ASCII letter, leaving every other character alone |
| Text.Prefix | plugin.php:932 | `substr($s, 0, $len)` has `min(len, |s|)` characters for a non-negative length, and drops `-len` characters from the end for a negative one |
| Text.NatToString | plugin.php:952 | the decimal form of a counter is a canonical digit string that reads back as the counter |
| Text.NatToStringOfParse | plugin.php:952 | a canonical digit string is the decimal form of its value |
| Text.NatToStringInjective | plugin.php:952-953 | two counters with the same decimal form are equal |
| Text.IntToStringInjective | plugin.php:69 | two integers with the same decimal form are equal, negative ones included |
| Text.IntToString | plugin.php:69 | an integer prints as a non-empty string: canonical digits when non-negative, a leading `-` when negative |
| Text.IntVal | plugin.php:68 | `intval` of a string always lies in the 64-bit range |
| Text.IntValOfIntToString | plugin.php:68-69 | `intval` of the decimal form of any 64-bit integer gives that integer back |
| Text.Explode | plugin.php:805 | `explode` always returns at least one piece |
| Text.ExplodePieces | plugin.php:805 | no piece `explode` returns holds the separator |
| Text.Implode | plugin.php:819 | the definition of `implode` with one separator character. Its property is stated by Text.ImplodeExplode |
| Text.ImplodeExplode | plugin.php:819 | `implode(sep, explode(sep, s)) == s` |
| Text.ExplodeAppend | plugin.php:837 | appending `sep + t` to a history, for `t` without `sep`, adds exactly the piece `t` to its explosion |
| Text.ExplodeJoin | plugin.php:837 | the explosion of `s + sep + t` is the explosion of `s` followed by that of `t` |
| Text.Basename | plugin.php:137 | `basename` never contains a `/` |
| Text.BasenameFixed | plugin.php:137 | `basename(s) == s` exactly when `s` holds no `/` |
| Paths.Components | plugin.php:64 | a path string resolves to names none of which is empty or `.` |
| Paths.ComponentsJoin | plugin.php:94 | joining two path strings with `/` joins their resolved names |
| Paths.ComponentsRTrim | plugin.php:64 | stripping trailing slashes does not change where a path string leads |
| Paths.ChildOf | plugin.php:711 | `rtrim(dir, '/') . '/' . name` is the entry `name` of `dir` |
| Paths.ChildOfSlashed | plugin.php:948 | for a directory string ending in `/`, `dir . name` is the entry `name` of `dir` |
| Paths.ComponentsAppend | plugin.php:948 | `dir . name`, for a name without `/`, is the entry made of `dir`'s last piece and `name`, in the directory before it |
| Paths.SlashedEntryDepth | plugin.php:948 | `dir . name`, for a `dir` ending in `/` and a name without `/`, lies at most one level below `dir` |
| Files.Children | plugin.php:706 | `scandir` lists exactly the names of the entries of a directory |
| Files.Subtree | plugin.php:679-693 | the subtree of `d` is exactly the set of nodes at or below `d` |
| Files.WithDirs | plugin.php:66 | `mkdir(…, true)` keeps every existing node and adds exactly the missing prefixes of the path, as directories stamped `now` |
| Files.FileSystem.MakeDirs | plugin.php:65-66 | recursive `mkdir` succeeds exactly when no prefix of the path is a non-directory and the path is absent, and adds the missing directories |
| Files.FileSystem.WriteFile | plugin.php:71 | a file can be written exactly when its parent is a real directory and the path is free or holds a file. The write replaces that file |
| Files.FileSystem.Append | plugin.php:102 | `fwrite` appends the bytes to the file and changes nothing else |
| Files.FileSystem.Read | plugin.php:101 | `file_get_contents` returns the file's bytes |
| Files.FileSystem.Unlink | plugin.php:103 | `unlink` succeeds exactly on an existing non-directory and removes only it |
| Files.FileSystem.RemoveDir | plugin.php:106 | `rmdir` succeeds exactly on an existing real directory with no entries and removes only it |
| Files.FileSystem.Rename | plugin.php:975 | `rename` succeeds exactly when the source is a file and a file could be written at the target. It then moves the node, replacing any file there |
| Slicing.TotalChunks | plugin.php:352 | `Math.ceil(size / chunkSize)` is the least count of 2 MiB chunks that covers the file |
| Slicing.ChunksSent | plugin.php:358-392 | the chunks posted: the total, and one (chunk 0) for an empty file |
| Slicing.Slice | plugin.php:362-364 | chunk `i` is bytes `[i·2MiB, min((i+1)·2MiB, size))`, empty past the end |
| Slicing.Slices | plugin.php:361-392 | the posted chunks are one slice per index `0 … ChunksSent-1` |
| Slicing.ConcatFirstSlices | plugin.php:362-364 | the first `k` slices concatenate to the first `min(k·2MiB, size)` bytes |
| Slicing.SlicesRoundTrip | plugin.php:351-364 | concatenating all posted slices gives the file back |
| Slicing.SliceSizes | plugin.php:362-364 | every slice but the last is a full 2 MiB, and no slice of a non-empty file is empty |
| TempSpace.SanitizeId | plugin.php:58 | the path id is no longer than the posted id and holds only `[A-Za-z0-9_]` |
| TempSpace.SanitizeConcat | plugin.php:58 | sanitising works character by character: `sanitize(a + b) == sanitize(a) + sanitize(b)` |
| TempSpace.SanitizeChar | plugin.php:58 | a single character is kept exactly when it is in `[A-Za-z0-9_]` |
| TempSpace.SanitizeFixed | plugin.php:58 | an id passes unchanged exactly when all its characters are allowed |
| TempSpace.SanitizeIdempotent | plugin.php:87 | sanitising a sanitised id changes nothing |
| TempSpace.ClientIdSurvives | plugin.php:354 | the id the browser makes, `Date.now() + "_" + base-36 digits`, passes sanitising unchanged |
| TempSpace.ScratchRoot | plugin.php:59-61 | the scratch root is the share directory, or the system temporary directory when the option is falsy |
| TempSpace.ScratchName | plugin.php:64 | the scratch directory's name is a plain entry name starting `icc_temp_` |
| TempSpace.ScratchDirPath | plugin.php:93 | the scratch directory string resolves to the root's names followed by `icc_temp_<id>` |
| TempSpace.PartName | plugin.php:69 | a chunk's file name is a plain name starting `part_` |
| TempSpace.PartPath | plugin.php:69 | `target_dir . '/part_' . index` is the entry `part_<index>` of the scratch directory |
| TempSpace.ChunkIndexName | plugin.php:98 | a `part_<n>` name is the part name of its index |
| TempSpace.PartNameIndexed | plugin.php:98 | the part name of a non-negative index is indexed by that index |
| TempSpace.PartNameInjective | plugin.php:69 | different indices, negative ones included, are stored in different files, and a re-sent index lands on the same file |
| TempSpace.InIndices | plugin.php:98 | `k` is among the stored indices exactly when `part_k` is a file of the scratch directory |
| TempSpace.NegIndexOf | plugin.php:98-99 | the magnitude `m` read from a `part_-<m>` name is at least 1 |
| TempSpace.NegNotIndexed | plugin.php:98-99 | a `part_-<m>` name is never a `part_<k>` name with `k >= 0` |
| TempSpace.NegChunkName | plugin.php:69 | a `part_-<m>` name is the part name of the index `-m` |
| TempSpace.PartNameNegative | plugin.php:69 | the part name of a negative index `-m` is a `part_-<m>` name whose magnitude reads back as `m` |
| TempSpace.PartNameChunk | plugin.php:68-69 | every name the chunk handler writes, for any `intval` of the posted index, is `part_<k>` with `k >= 0` or `part_-<m>` with `m >= 1` |
| TempSpace.NegIndices | plugin.php:98 | the magnitudes of the negative indices stored in the scratch directory, each at least 1 |
| TempSpace.InNegIndices | plugin.php:98 | `m` is among the negative magnitudes exactly when `part_-<m>` is a file of the scratch directory |
| TempSpace.IndicesAfterStore | plugin.php:71 | storing chunk `k` adds `k` to the stored indices and no other |
| TempSpace.PartsAfterStore | plugin.php:71 | storing chunk `k` replaces part `k`'s bytes and leaves every other part as it was |
| TempSpace.HandleChunk | plugin.php:45-77 | the chunk handler's new files and reply are those of one chunk step from the old files |
| TempSpace.ChunkStep | plugin.php:45-77 | the definition of one chunk request: gates, `mkdir` of the scratch directory, the write of `part_<intval>`, and the reply. Its properties are stated by TempSpace.ChunkGates, TempSpace.ChunkStepCollects and Assembly.ChunkStepKeepsChunksOnly |
| TempSpace.ChunkGates | plugin.php:47-56 | a failed nonce, or a missing or failed upload, changes no file and answers with that gate's error |
| TempSpace.FreshDirEmpty | plugin.php:65-66 | a scratch directory the handler creates has no entries |
| TempSpace.PreparedCollects | plugin.php:64-66 | making the scratch directory keeps the chunks already collected |
| TempSpace.StoreCollects | plugin.php:69-71 | storing a slice as `part_k` is possible and adds slice `k` to the collection |
| TempSpace.ChunkStepCollects | plugin.php:45-77 | a valid chunk request succeeds and adds its slice to the scratch directory |
| TempSpace.DeliverCollects | plugin.php:45-77 | chunks delivered in any order, repeats included, leave exactly the slices of the indices sent |
| TempSpace.DeliverFromScratch | plugin.php:45-77 | chunks delivered in any order into a fresh scratch directory leave exactly the delivered slices |
| Assembly.SetMin | plugin.php:99 | the least of a non-empty set of indices |
| Assembly.Ascending | plugin.php:99 | lists each index of a set once, in increasing order |
| Assembly.AscendingUnique | plugin.php:99 | any increasing listing of the indices is the natural order |
| Assembly.AscendingRange | plugin.php:99 | the natural order of the indices `0 … n-1` is `0, 1, …, n-1` |
| Assembly.Range | plugin.php:99 | the list `0 … n-1` |
| Assembly.Below | plugin.php:99 | the set `{0 … n-1}` |
| Assembly.Negated | plugin.php:99 | negates each element of a list, keeping its length and positions |
| Assembly.NegatedOrder | plugin.php:99 | negating an increasing list of magnitudes gives negative indices in natural order, and lists exactly the negated magnitudes |
| Assembly.NatOrderJoin | plugin.php:99 | negative indices in natural order, followed by the other indices in increasing order, are in natural order |
| Assembly.NatSorted | plugin.php:99 | natural sort of `part_-<m>` and `part_<k>` names: every earlier index sorts before every later one (negatives first, by increasing magnitude, then ascending), and exactly the given indices are listed |
| Assembly.NatOrder | plugin.php:98-99 | the natural order of the chunks stored in a directory. Its properties are stated by Assembly.NatSorted and Assembly.InOrder |
| Assembly.InOrder | plugin.php:98-99 | an index is in the natural order exactly when its `part_` file is a regular file of the directory |
| Assembly.OrderPresent | plugin.php:98-101 | every index in the natural order names a stored regular file |
| Assembly.GlobIsOrder | plugin.php:98-99 | when every `part_*` entry is one the chunk handler writes, the glob finds exactly the paths of the chunks in natural order |
| Assembly.AppendChunks | plugin.php:100-104 | the loop appends each listed chunk to the output and unlinks it, in order |
| Assembly.FinalPathComponents | plugin.php:94 | the output path is the declared name inside the scratch directory |
| Assembly.OutputNotChunk | plugin.php:98 | an output name outside `part_*` is never one of the globbed chunks |
| Assembly.Assemble | plugin.php:97-105 | opening the output succeeds exactly when it is writable. Then every globbed chunk is appended in natural order and unlinked, and no `part_*` entry is left; otherwise nothing changes |
| Assembly.Assembled | plugin.php:97-104 | the definition of the nodes after `fopen` and the loop. Its properties are stated by Assembly.AssembledOutput, Assembly.AssembledNoChunks, Assembly.AssembledGlobEmpty and Assembly.AssembledRoundTrip |
| Assembly.GatheredAll | plugin.php:100-102 | reading `part_0 … part_{n-1}` in order gives back the file those slices came from |
| Assembly.AssembledOutput | plugin.php:97-104 | the output holds the stored chunks concatenated in natural order |
| Assembly.AssembledRoundTrip | plugin.php:97-104 | when every slice of a file is stored, assembly yields exactly that file and leaves no chunk |
| Assembly.AssembledNoChunks | plugin.php:98-103 | after assembly no `part_<k>` or `part_-<m>` file is left in the scratch directory |
| Assembly.AssembledDropsChunk | plugin.php:98-103 | after assembly the chunk of any index is no longer a regular file of the directory |
| Assembly.AssembledGlobEmpty | plugin.php:98-103 | when every `part_*` entry is one the chunk handler writes, assembly leaves no `part_*` entry at all |
| Assembly.FreshChunksOnly | plugin.php:64-66 | a scratch directory that does not exist yet has no `part_*` entry |
| Assembly.ChunkStepKeepsChunksOnly | plugin.php:45-77 | a chunk request, for this upload or another, leaves every `part_*` entry of a scratch directory one the chunk handler writes |
| Assembly.UploadRoundTrip | plugin.php:351-364 | a file sliced by the browser, its chunks delivered in any order, is assembled into the original bytes |
| Assembly.HandleFinish | plugin.php:79-120 | a failed nonce or an output that cannot be opened changes nothing. Otherwise the chunks are assembled in natural order and the scratch directory is left in place. The publisher runs on the output, and the reply is success carrying the publisher's message, whatever it reports |
| Assembly.AssemblyKeepsDir | plugin.php:97-104 | assembly keeps the scratch directory it writes in |
| Assembly.FinishKeepsScratchDir | plugin.php:106 | after a finished upload the scratch directory still exists |
| Assembly.HandleFinishTidy | plugin.php:106 | the corrected finish handler does all the original does, then removes the scratch directory when publishing has emptied it |
| Assembly.AssembledLeavesOutput | plugin.php:98-104 | when the scratch directory held only chunks, the output is its only entry after assembly |
| Assembly.TakenEmpties | plugin.php:975 | moving or deleting the only entry of a directory leaves it with no entries |
| Assembly.TidyRemovesScratchDir | plugin.php:106 | with the corrected handler, a published chunked upload leaves no scratch directory behind |
| Assembly.HandleAjax | plugin.php:27-43 | only the two upload actions are answered, a user who is not logged in gets "Authentication failed" with no change, and each action runs its handler |
| Naming.Extension | plugin.php:894 | `PATHINFO_EXTENSION` holds neither `.` nor `/`; it is the text after the last `.` of the base name, and "" when the base name has no `.` |
| Naming.Filename | plugin.php:902 | `PATHINFO_FILENAME` holds no `/`; it is the base name up to its last `.` (no `.` follows it), or the whole base name when there is no `.` |
| Naming.WithDot | plugin.php:897-900 | the dot is added only to a non-empty extension, and no `/` appears |
| Naming.PathInfoSplit | plugin.php:894-902 | file name plus dotted extension give back the base name, except that a trailing bare dot is lost |
| Naming.ReplaceUnsafe | plugin.php:912-913 | every character outside `[()_\-.,0-9a-zA-Z[\]]` becomes `_` and every other stays, position by position |
| Naming.Collapse | plugin.php:914 | collapsing underscores never lengthens, keeps the first character, and introduces no new character |
| Naming.CollapseNoDouble | plugin.php:914 | after collapsing no two underscores stand together |
| Naming.CollapseFixed | plugin.php:914 | collapsing leaves a string alone exactly when it has no double underscore |
| Naming.CollapseIdempotent | plugin.php:914 | collapsing twice is collapsing once |
| Naming.CollapseKeeps | plugin.php:914 | collapsing equals the position-by-position reference Naming.Keep: every character is kept, in order, except an underscore that directly follows another, so each run of underscores becomes one `_` |
| Naming.CollapseKeepsFrom | plugin.php:914 | from any position on, collapsing the rest of the string agrees with the reference, less the run's leading `_` when that position continues a run |
| Naming.CollapseInside | plugin.php:914 | `a__b` collapses to `a_b` |
| Naming.CollapseEnds | plugin.php:914 | `__x___` collapses to `_x_` |
| Naming.SafeFilename | plugin.php:909-914 | the definition of the browser-safe file name: `trim`, `strtolower`, unsafe characters to `_`, underscores collapsed. Its properties are stated by Naming.SafeFilenameShape and Naming.SafeFilenameIdempotent; which characters survive, in which order, follows from Naming.ReplaceUnsafe's contract and Naming.CollapseKeeps |
| Naming.SafeExtension | plugin.php:911-916 | the definition of the browser-safe extension: as the file name, without the `trim`. Its properties are stated by Naming.SafeExtensionShape and Naming.SafeExtensionIdempotent; which characters survive, in which order, follows from Naming.ReplaceUnsafe's contract and Naming.CollapseKeeps |
| Naming.SafeFilenameShape | plugin.php:909-914 | the browser-safe file name has only allowed characters, no upper case and no `__` |
| Naming.SafeExtensionShape | plugin.php:911-916 | the browser-safe extension has only allowed characters, no upper case and no `__` |
| Naming.SafeFixed | plugin.php:909-914 | every rewriting step leaves a browser-safe string unchanged |
| Naming.SafeFilenameIdempotent | plugin.php:909-914 | rewriting a browser-safe file name again changes nothing |
| Naming.SafeExtensionIdempotent | plugin.php:911-916 | rewriting a browser-safe extension again changes nothing |
| Naming.AlphabetDistinct | plugin.php:932 | the suffix alphabet `a–z0–9` has 36 distinct characters |
| Naming.ShuffleShape | plugin.php:932 | a shuffle of the alphabet has 36 distinct base-36 characters |
| Naming.SuffixShape | plugin.php:932 | for a length `L` from 1 to 36 the suffix has `L` distinct base-36 characters |
| Naming.RandomName | plugin.php:939 | the randomized name is 12 hexadecimal characters |
| Naming.Policy | plugin.php:903-943 | the definition of the `convert_filename` switch. Its cases are stated by Naming.BrowserSafePolicy, Naming.SafeSuffixPolicy, Naming.RandomizedPolicy and Naming.NoPolicy |
| Naming.ResolveName | plugin.php:894-943 | the definition of the name an upload is published under: `pathinfo` split, then the policy. Naming.PolicyNoSlash and Publish.Resolve state that no `/` enters it |
| Naming.BrowserSafePolicy | plugin.php:907-918 | `browser-safe` yields a browser-safe name and extension |
| Naming.SafeSuffixPolicy | plugin.php:920-935 | `safe_suffix` is the browser-safe name, `_`, and `L` distinct base-36 characters, with the browser-safe extension |
| Naming.RandomizedPolicy | plugin.php:937-941 | `randomized` replaces the name by 12 hex characters and keeps the extension as it was |
| Naming.NoPolicy | plugin.php:903-943 | with no policy posted, or an unknown one, name and extension are unchanged |
| Naming.PolicyNoSlash | plugin.php:905-943 | no policy puts a `/` into the name or the extension |
| Publish.Gate | plugin.php:854-889 | the definition of the errors returned before any file or service is touched, the missing-file error first. Its cases are stated by Publish.LocalGate, Publish.S3Gate and Publish.GateFirst |
| Publish.LocalGate | plugin.php:867-876 | local storage passes the gates exactly when a file was chosen, URL and directory are set, and the directory exists and is writable |
| Publish.S3Gate | plugin.php:877-889 | S3 storage passes the gates exactly when a file was chosen, key, secret, region and bucket are set, and the client comes up |
| Publish.Resolve | plugin.php:891-943 | the resolved name and extension of an upload contain no `/` |
| Publish.Candidate | plugin.php:946-953 | the definition of the `n`-th name the probe tries. Its properties are stated by Publish.CandidateInjective, Publish.CandidatePlain and Publish.FirstFree |
| Publish.Probe | plugin.php:948-953 | the definition of `file_exists` on a candidate. Publish.FreeTarget and Publish.FirstFree state what a free answer means |
| Publish.CandidateInjective | plugin.php:952-953 | different probe counters give different candidate names |
| Publish.CandidatePlain | plugin.php:952 | a numbered candidate is a plain entry name |
| Publish.FreeTarget | plugin.php:948-952 | a candidate the probe finds free is a plain path that does not exist |
| Publish.ProbeStep | plugin.php:951-955 | each taken candidate is a distinct existing node, so the probe loop ends |
| Publish.FirstFree | plugin.php:946-955 | the probe returns the first candidate that is free, and every earlier candidate is taken |
| Publish.Given | plugin.php:1016 | a posted field counts exactly when it is set and not empty |
| Publish.Keyword | plugin.php:1015-1018 | the keyword is the custom short name when given, otherwise empty |
| Publish.Title | plugin.php:1020-1023 | the title is the custom title when given, otherwise `policy + ': ' + basename(upload name)` |
| Publish.DefaultTitleEndsWithName | plugin.php:1020 | the default title ends with the base name of the upload |
| Publish.PutRequest | plugin.php:987-995 | the S3 request names the bucket, the published name and the file, with `ACL=public-read` exactly when ACLs are not disabled |
| Publish.LocalMoveContents | plugin.php:975-977 | after a local move the target holds the uploaded bytes, the chunked source is gone, and nothing else changes |
| Publish.PublishLocal | plugin.php:946-984 | local publishing moves the file to the first free candidate. A form upload moves only when PHP reported error code 0 for it. On success it links `share_url . final_name`; if the move fails nothing changes, no link is made, and the message reports the error code |
| Publish.PublishS3 | plugin.php:956-1010 | S3 publishing sends one put. On failure nothing changes; on success the assembled file is removed and the object URL is linked |
| Publish.LocalOutcome | plugin.php:946-984 | the definition of what local publishing does. Publish.PublishLocal establishes it, and Publish.LocalMoveContents, Publish.LinkedTakesSource and Publish.PublishFrame state its effect on the files |
| Publish.S3Outcome | plugin.php:956-1010 | the definition of what S3 publishing does. Publish.PublishS3 establishes it, and Publish.AclUnlessDisabled and Publish.S3FailureKeepsFile state its properties |
| Publish.ProcessUpload | plugin.php:851-1034 | a failed gate changes nothing and calls no service. Past the gates the configured storage publishes, and another storage type publishes nothing |
| Publish.Published | plugin.php:851-1034 | the definition of what `process_upload` does, gate by gate and storage by storage. Publish.ProcessUpload establishes it, and Publish.GateFirst and Publish.PublishFrame state its properties |
| Publish.SuccessMessage | plugin.php:1028-1030 | the definition of the success message: the uploaded name, the storage, the direct and the short URL |
| Publish.FailureMessage | plugin.php:1032-1033 | the definition of the failure message: the form's error code, or "Unknown error" for an assembled file |
| Publish.S3FailureMessage | plugin.php:1008 | the definition of the S3 exception message |
| Publish.GateFirst | plugin.php:866-889 | a configuration error leaves every file as it was and sends no put and no link |
| Publish.AclUnlessDisabled | plugin.php:993-995 | a put carries `public-read` exactly when ACLs are not disabled |
| Publish.S3FailureKeepsFile | plugin.php:1007-1008 | on an S3 exception the assembled file is left in place and no link is made |
| Publish.LinkedTakesSource | plugin.php:975-1002 | a linked chunked upload has moved the assembled file to the share directory (local) or deleted it (S3), and changed nothing else |
| Publish.PublishFrame | plugin.php:972-1010 | publishing leaves every existing node other than the chunked upload's assembled file as it was. It may only add the target |
| Sweep.ScanDir | plugin.php:706 | `scandir` lists `.`, `..` and each entry of the directory exactly once |
| Sweep.Rrmdir | plugin.php:679-693 | `icc_rrmdir` removes a real directory with everything below it and does nothing to anything else |
| Sweep.RemoveEntry | plugin.php:685-688 | an entry is removed with everything below it. A link is unlinked, never followed |
| Sweep.Expired | plugin.php:712-714 | the definition of the entries a sweep removes. Sweep.ExpiredIff states the test entry by entry |
| Sweep.ExpiredIff | plugin.php:712-714 | an entry is swept exactly when it is `is_dir`, starts `icc_temp_`, is older than 86400 s (86400 s exactly is kept) and is a real directory |
| Sweep.SweepAlongAll | plugin.php:706-718 | sweeping along the listing in any order removes exactly the subtrees of the expired entries |
| Sweep.EntriesOnlyInDir | plugin.php:702-703 | a scratch root that is not a directory has nothing to sweep |
| Sweep.CleanEntry | plugin.php:708-717 | one entry of the automatic sweep is removed exactly when it is expired |
| Sweep.CleanupTemp | plugin.php:696-719 | the automatic sweep removes exactly the expired scratch directories with their contents. A missing root changes nothing |
| Sweep.ReportUntouched | plugin.php:202-229 | each entry is reported as it stood before the sweep began, whatever was removed earlier |
| Sweep.ReportAlongAll | plugin.php:202-230 | the diagnostics report once on every scratch entry, with its age and verdict |
| Sweep.Verdict | plugin.php:218-229 | the definition of the verdict on one entry. Sweep.Diagnose and Sweep.InspectEntry state the report and the removal that go with it |
| Sweep.Diagnose | plugin.php:212-229 | the age is `now - filemtime`. An entry older than 86400 s is deleted, or reported as failed when it is a link; a younger one is kept |
| Sweep.InspectEntry | plugin.php:202-229 | one entry of the manual sweep reports as older or kept and removes exactly what the automatic sweep would |
| Sweep.ManualCleanup | plugin.php:184-240 | a failed nonce, a missing root or an unwritable root changes nothing. Otherwise every scratch entry is reported and exactly the expired ones are removed |
| Admin.WithSlash | plugin.php:559 | `rtrim(v, '/') . '/'` ends in exactly one `/` and keeps everything before the trailing slashes |
| Admin.WithSlashIdempotent | plugin.php:559-562 | normalising a saved URL or directory again changes nothing |
| Admin.Saved | plugin.php:551-583 | the definition of the settings after a save. Its properties are stated by Admin.SavedNormalises and Admin.ResaveKeeps |
| Admin.SavedNormalises | plugin.php:555-580 | a save ends posted URL and directory in one `/` and trims posted S3 fields. Unposted fields keep their values; `disable_acl` is exactly whether the box was ticked; the suffix length stays a 64-bit integer |
| Admin.ResaveKeeps | plugin.php:477-580 | submitting the settings form as the page fills it in, after any save, stores the same settings again |
| Admin.OptionTable.UpdateSettings | plugin.php:551-583 | the stored settings become the saved form, whatever the nonce check said |
| Admin.OptionTable.UpdateSettingsChecked | plugin.php:553 | with the nonce result obeyed, a failed check leaves the settings unchanged |
| Admin.ForgedSubmissionSaves | plugin.php:553 | a submission with a bad nonce still replaces the share directory |
| Admin.ForgedSubmissionRefused | plugin.php:553 | with the check obeyed, the same submission changes nothing |
| Admin.DeleteGuard | plugin.php:137 | the guard `basename($name) == $name` accepts exactly the names without `/` |
| Admin.DeleteLocalFile | plugin.php:131-154 | local delete: each message in its case. Only an existing non-directory entry of the share directory, named without `/`, is unlinked; nothing else changes |
| Admin.DeleteS3File | plugin.php:156-181 | a delete request goes to S3 exactly when the nonce passes and the client comes up, and names the bucket and the posted key |
| Admin.TotalPages | plugin.php:618 | `ceil(total / 20)`: the least page count whose pages of 20 hold every file |
| Admin.CurrentPage | plugin.php:619 | the page is at least 1: 1 without a parameter or when its `intval` is below 1, and otherwise the parameter's `intval` |
| Admin.PageOf | plugin.php:622 | the definition of `array_slice` for one page. Its properties are stated by Admin.PageShape, Admin.PageNonEmpty and Admin.PagesCoverAll |
| Admin.PageShape | plugin.php:620-622 | page `p` shows files `(p-1)·20` onwards, at most 20 of them, in listing order |
| Admin.PageNonEmpty | plugin.php:618-624 | a page shows files exactly when its number is at most the page count |
| Admin.PagesCoverAll | plugin.php:616-622 | pages 1 to the page count, in order, show every file exactly once |
| Admin.History | plugin.php:805 | the definition of the history read from the request: its explosion at `,`, or none. Text.ExplodePieces states that no entry holds a `,` |
| Admin.PreviousLink | plugin.php:816-829 | the definition of the Previous link: the history popped. Admin.NextThenPrevious and Admin.ForwardBack state what it undoes |
| Admin.NextLink | plugin.php:831-841 | the definition of the Next link: the current token pushed onto the history. Admin.NextThenPrevious and Admin.ForwardBack state what undoes it |
| Admin.FirstLink | plugin.php:812-814 | "First" is offered exactly when a continuation token is being followed |
| Admin.NextThenPrevious | plugin.php:816-841 | following Next and then Previous returns to the page's token and history, for any token without `,` that is not `__TOP__` |
| Admin.ForwardBack | plugin.php:816-841 | after one or more Next links, as many Previous links return to the page where they started, for tokens the history can carry |

## Left out

- HTML rendering: the upload form, the file-manager tables, messages and links. Only the values that go into them are modelled: messages, URLs, titles, page numbers and history strings. `htmlspecialchars` and `urlencode` are not modelled.
- The browser's DOM and progress handling, including the floating-point percentage. Only the slice arithmetic is kept.
- The browser's retries and error paths: a failed chunk stops the browser. The model has the server side of every request and proves the round trip for the requests a complete upload sends.
- Upload through the plain form is modelled only as a source for the publisher (`Publish.Source.Form`). `move_uploaded_file` writes the uploaded bytes when PHP reported error code 0 for the upload and fails otherwise. PHP's own checks on the temporary file are not modelled.
- YOURLS calls are parameters: `yourls_is_valid_user`, `yourls_verify_nonce` (a boolean), the options (a `Config` record), and `yourls_add_new_link` (the link request is returned and the short URL is a parameter).
- AWS: client construction (`icc_get_aws_client`) is a boolean. `putObject` is a success carrying an object URL, or an exception message. `deleteObject` is a returned request plus an optional exception message.
- `listObjectsV2` and the S3 listing are not modelled; only the history links built around it are.
- The clock, `str_shuffle` and `md5` are parameters. MD5 itself is not modelled, only the shape of its hexadecimal output.
- The local file manager's listing (`scandir`, the `is_dir` filter and the `usort` by modification time) is not modelled. Its pagination is modelled over any sequence of names.
- PHP's float arithmetic in `ceil` and in the offset is modelled with exact integers; it differs only for page numbers beyond 2^53.
- `intval` is modelled for leading whitespace, an optional sign and decimal digits, saturating at the 64-bit bounds. Other forms PHP accepts are not modelled.
- Natural sort is modelled for the names the chunk handler writes: `part_<i>` for every 64-bit `i`, so also `part_-1` for a posted index of `-1`. Other names are not modelled.
- Assembly.HandleFinish: requires the declared file name to be a plain name outside the `part_*` pattern. A name with `/` makes the source write elsewhere. A name of `.` or `..` names a directory, so the source's `fopen` fails and it answers "Failed to assemble file" with no change; that case is not modelled. A name starting `part_` is matched by the glob itself, so the source appends the output file to itself and unlinks it; that case is not modelled either.
- Assembly.Assemble: requires every `part_*` entry of the scratch directory to be a regular file `part_<i>` as the chunk handler writes it. Entries another program put there (`part_01`, `part_x`, a directory `part_0`) are not modelled. Assembly.ChunkStepKeepsChunksOnly and Assembly.FreshChunksOnly prove that the plugin's own requests keep this true.
- Assembly.Assemble: takes the directory part of the source's pattern `$target_dir . '/part_*'` literally. PHP's `glob` reads `*`, `?`, `[` and `\` there as pattern characters too, and the temp root is not sanitised. With a temp root such as `/srv/tmp[1]` the source's glob can find no chunk, or another directory's chunks. The model does not constrain the temp root and does not capture that case.
- Assembly.HandleFinish: inherits that literal reading of the glob's directory part from Assembly.Assemble.
- Assembly.HandleFinishTidy: the same two requirements as Assembly.HandleFinish and Assembly.Assemble, for the same reasons, and the same literal reading of the glob's directory part.
- Assembly.HandleAjax: for the finish action, the same two requirements and the same literal reading of the glob's directory part as Assembly.HandleFinish; its dispatch by action is exact.
- `..` in a configured directory string is not resolved. Directory options are required to resolve to plain names, or the root.
- Paths.Components: there is no working directory, so a relative path string resolves like the absolute one with the same names (`tmp` like `/tmp`).
- Directory modification times are set when a directory is created. The update the operating system makes when an entry is added or removed is not modelled, so the age of a scratch directory is the time since its creation.
- Symbolic links: a link has no entries of its own. `icc_rrmdir` on a link to a directory therefore changes nothing in the model, where PHP would empty the target and then fail `rmdir`. Links below a scratch directory are unlinked, as in the source.
- `scandir` order: the sweeps are proved for every order.
- Permission failures other than those modelled are not modelled. Modelled are `is_writable` on the upload directory and the writability checks of `fopen`, `rename`, `unlink` and `rmdir` on the node kinds.
- Concurrency: two requests for the same upload, or a sweep during an upload, are not modelled.
- `set_time_limit` and the request's death on `die()` are not modelled.
- Publish.Probe: `file_exists` on a candidate whose joined path is empty, `.` or `..` counts as taken, because such a path names an existing directory.
- Admin.OptionTable.UpdateSettings: a failing `yourls_verify_nonce` is taken to return false. YOURLS' own function may instead stop the request, and it is not part of this model.
- Naming: the concrete example on the upload form ("my not safe&clean filename #1.txt") is not worked as a lemma. The general shape and idempotence of the browser-safe rewriting are proved instead.

## Findings

| source | as written | input that shows it | evidently intended | confidence | as-written member | corrected member |
|---|---|---|---|---|---|---|
| plugin.php:553 | the result of `yourls_verify_nonce` is discarded, so the settings are saved whatever the check says | a settings post with a wrong nonce and `icc_upload_share_dir=/tmp` | a failed check leaves the settings unchanged, as every other handler in the file does | not executed | Admin.ForgedSubmissionSaves | Admin.ForgedSubmissionRefused |
| plugin.php:106 | `rmdir($target_dir)` runs while the assembled file is still inside, so it always fails. The scratch directory stays until the sweep removes it, and the publisher never removes it | any upload whose finish request succeeds, e.g. one chunk for `report.pdf` | the scratch directory is removed once the assembled file has been moved away or deleted | not executed | Assembly.FinishKeepsScratchDir | Assembly.TidyRemovesScratchDir |
