# UI framework binding generator — a verified model

This project models the behaviour-bearing core of a Unity UI framework's editor tooling and one runtime component.

- **UIContextPrinter** turns a UIContext into a TypeScript binding block. A UIContext is a prefab's list of bound components, with a prefab path and a hash. The block has:
  - one field declaration per node;
  - a `GetPrefabPath` method returning the prefab path;
  - a `BindComponents` method with one `GetComponent<T>(i)` call per node.

  The whole block is framed by `//<PREFAB {hash}>` … `//</PREFAB>`. A component's type name is the first `class X extends UIWindow|UIControl` declaration in the nested context's script, or else `CS.` followed by its full type name. The unreachable C# variant (`GenerateCsCode`) is modelled as well.
- **UIContextEditor.UpdateScriptCode** rewrites the block in the script:
  1. It derives the prefab path from the asset path.
  2. It finds the script, first through the hash→file cache and otherwise by scanning the `.ts` files under the code directories for the hash.
  3. It locates the marker region with a greedy regular expression and replaces it with the freshly generated block.

  The editor's list edits are modelled too: drop, delete, choose component and rename. They act on the two parallel lists `lstComponentsInEditor` and `lstComponents`.
- **UIEditorConfig** holds the constants, the marker format and the JSON binding cache. The cache is an abstract store: missing, blank, a map, or unreadable.
- **UIAnimator** plays timelines by name and keeps a stop callback. It is modelled as a state record with the callbacks each step invokes.

The file system is a map from path to text, plus a listing of the files under each directory in enumeration order. The binding cache file (`Assets/Editor/ui_cache.json`) is kept apart from it, as the editor's cache. `Environment.NewLine` is a parameter (`LF` or `CRLF`). Every operation is a pure function or a method on immutable values. Generation is deterministic by construction: equal inputs give equal text.

Modules, one file each:
- `Wrappers`, `Strings`, `Paths`, `Decimal`: `Option`/`Result`, C# `Replace`/`StartsWith`/`Contains`, `Path.GetExtension`, integer printing.
- `Errors`: the exceptions and assertion failures, as values.
- `Contexts`: the records of `Runtime/UIContext.cs`.
- `EditorConfig`: `UIEditorConfig`.
- `ClassMatch`: the class-declaration pattern.
- `Regions`: the marker region and the splice.
- `Printer`: `UIContextPrinter`.
- `TsReader`, `CsReader`: readers that parse generated blocks back. They are the partners of the printers.
- `ContextEditor`: `UpdateScriptCode` and `TryFindTsScriptByHashCode`.
- `BindingList`: the list edits.
- `Animator`: `UIAnimator`.

Where the code and its intended behaviour part ways, the model follows the code:
- The region match is greedy. It runs from the first opening marker of the hash to the LAST closing marker in the file, across regions of other hashes (`Regions.GreedyRegionSpansLaterRegions`).
- When the region is missing, the editor scans again, but it reuses the failed match, whose text is empty. The generated code is computed first. Then `Replace` with an empty pattern throws, so the update fails without writing any script. The rescan has already set `bindFile` and may have created or updated the cache file (`ContextEditor.Rewrite`, `ContextEditor.RegionMissWritesNothing`).
- A cache hit does not update `bindFile`. Code generation then dispatches on the bind file the context already had.
- `Replace` removes every occurrence of the prefab directory and of the extension, not just the prefix and the suffix. An asset without an extension makes `Replace("")` throw.

## Model

| member | source | states |
|---|---|---|
| Printer.GenerateCode | Editor/UIContextPrinter.cs:12-20 | A bind file whose extension is ".ts" gets the TypeScript block. Any other extension fails with that extension. A block produced starts with the opening marker of the hash and ends with the closing marker. |
| Printer.GenerateTsCode | Editor/UIContextPrinter.cs:48-82 | Generation succeeds exactly when every node has a component. The block is the marker format applied to the hash and the body built from the resolved bindings and the prefab path. |
| Printer.ResolveFrom | Editor/UIContextPrinter.cs:53-58 | One binding per node, in node order: the node's field name and the type name resolved from its component. It fails exactly when some node's component is null, and reports the first such node. |
| Printer.TypeName | Editor/UIContextPrinter.cs:39-45 | The resolved type name is never empty. |
| Printer.TypeNameResolution | Editor/UIContextPrinter.cs:22-46 | Plain components, contexts whose script is missing, and scripts without a matching declaration all fall back to "CS." + full type name. Otherwise the name is the word of the leftmost `class X extends UIWindow/UIControl` declaration in the script. |
| Printer.GenerateDependsOnBindScripts | Editor/UIContextPrinter.cs:22-46 | Generation reads only the scripts of the nodes' nested contexts: two file systems that agree on those give the same result. |
| Printer.LastSegment | Editor/UIContextPrinter.cs:93 | `Split(".").Last()`: the result is a suffix without dots, preceded by a dot whenever it is shorter than the input. |
| Printer.GenerateCsCode | Editor/UIContextPrinter.cs:84-119 | The C# block succeeds exactly when every node has a component. It is the marker format around the C# body. |
| TsReader.TsBodyRoundTrip | Editor/UIContextPrinter.cs:50-79 | Parsing a generated body gives back the bindings in order, the prefab path verbatim, and one bind call per binding with index k and the same type. |
| TsReader.GeneratedCodeReadsBack | Editor/UIContextPrinter.cs:48-82 | The marker search finds a generated block whole. Its interior reads back as one field line per node, the path, and bind calls 0..n-1 whose types equal the field types. |
| TsReader.TypeNameAvoids | Editor/UIContextPrinter.cs:22-46 | A resolved type name contains a non-word character outside "CS." only if the full type name does. |
| CsReader.CsBodyRoundTrip | Editor/UIContextPrinter.cs:86-116 | Parsing a generated C# body gives back the fields with their last type segment, the path, and one call per node at its own index. |
| CsReader.GeneratedCsCodeReadsBack | Editor/UIContextPrinter.cs:84-119 | The C# block is found whole by the marker search, and its interior reads back as the cut declarations, the path and the calls. |
| ClassMatch.ClassMatchAtSound | Editor/UIContextPrinter.cs:30 | The match attempt at a position succeeds exactly when a declaration `class`, spaces, a word, spaces, `extends`, spaces and UIWindow or UIControl starts there. It captures that declaration's word. |
| ClassMatch.FirstClassNameSpec | Editor/UIContextPrinter.cs:30-35 | The captured name is the word of the leftmost declaration. There is none exactly when no position holds a declaration. |
| ClassMatch.ClassNameIsWord | Editor/UIContextPrinter.cs:30-34 | A captured class name is a non-empty run of word characters. |
| ClassMatch.FirstDeclFrom | Editor/UIContextPrinter.cs:30 | The position found is the leftmost one, at or after the start, where the match attempt succeeds. |
| Regions.FindRegion | Editor/UIContextEditor.cs:290-291 | The region found is a match. It starts at the leftmost opening marker of the hash and ends at the last closing marker. It contains every other match, and there is none exactly when no match exists. |
| Regions.FindRegionExact | Editor/UIContextEditor.cs:290-291 | A match with no opening marker before it and no closing marker after it is the region found. |
| Regions.ReplaceMatchIsSplice | Editor/UIContextEditor.cs:300-302 | The matched text occurs exactly once, so `Replace` rewrites exactly the matched span. |
| Regions.ReplaceKeepsOutside | Editor/UIContextEditor.cs:300-303 | After the rewrite, the text before the region and after it are kept character for character, and the new block lies between them. |
| Regions.SpliceRefinds | Editor/UIContextEditor.cs:289-303 | Matching again after splicing a framed block finds exactly that block, for any body, when the hash has no '>'. |
| Regions.RegenerateIdempotent | Editor/UIContextEditor.cs:289-303 | Splicing the same block a second time leaves the text unchanged. |
| Regions.TagIsRegion | Editor/UIEditorConfig.cs:13 | A framed block on its own is one whole region, and its interior is the body. |
| Regions.GreedyRegionSpansLaterRegions | Editor/UIContextEditor.cs:290-291 | Take a block for hash a followed by a block for another hash b. The region of a spans both, so regenerating a overwrites b's block. |
| EditorConfig.TagsLastCharUnique | Editor/UIEditorConfig.cs:13 | Each marker ends with its only '>' (given a hash without '>'), so no marker overlaps another copy of itself. |
| EditorConfig.ReadBindingCache | Editor/UIEditorConfig.cs:22-28 | Reading fails exactly when the file holds text the JSON reader rejects, and the failure is a corrupt cache. |
| EditorConfig.MissingCacheReadsEmpty | Editor/UIEditorConfig.cs:22-28 | A missing or empty cache file reads as the empty map. |
| EditorConfig.EnsureCacheFileKeeps | Editor/UIEditorConfig.cs:38-48 | A missing file is created empty, an existing file is kept, and doing it again changes nothing. |
| EditorConfig.SaveThenRead | Editor/UIEditorConfig.cs:22-36 | Reading after a save returns exactly the saved map. |
| EditorConfig.RecordBinding | Editor/UIContextEditor.cs:333-335 | Recording succeeds unless the cache is unreadable. After a failure, the file is still the unreadable one. |
| EditorConfig.RecordThenLookup | Editor/UIContextEditor.cs:333-335 | After recording hash→path, a lookup of the hash yields the path. The keys are the old keys plus the hash, and every other key keeps its value. |
| Paths.Extension | Editor/UIContextEditor.cs:272 | `Path.GetExtension`: the result is the suffix from the last dot when that dot is followed by at least one character, none of them a dot or a separator; otherwise it is empty. |
| Paths.ExtensionOfStem | Editor/UIContextEditor.cs:272 | The extension of stem + "." + e is "." + e for a plain non-empty e. |
| Decimal.ParseDecimalString | Editor/UIContextPrinter.cs:75 | The printed index reads back as the same number. |
| ContextEditor.FirstPrefixFrom | Editor/UIContextEditor.cs:267-275 | The directory chosen is the first one, in array order, that the asset path starts with. None is chosen exactly when no directory matches. |
| ContextEditor.DerivePrefabPath | Editor/UIContextEditor.cs:266-277 | An asset under no prefab directory fails the assertion. Every other failure is the empty-pattern `Replace`. |
| ContextEditor.DerivePrefabPathStrips | Editor/UIContextEditor.cs:266-277 | For an asset `dir + stem + "." + e` under the first matching directory, the prefab path is exactly the stem. This needs the directory to occur nowhere else in the path and the stem to have no dot. |
| ContextEditor.ConfiguredPrefabOrder | Editor/UIEditorConfig.cs:11 | With the configured roots, an asset under the second root does not start with the first, so the first root's test fails and the prefab path is derived from the second root. |
| ContextEditor.ScanFiles | Editor/UIContextEditor.cs:315-337 | A script found is a listed ".ts" file whose text contains the hash. A failure is a listed file that cannot be read. |
| ContextEditor.ScanDirs | Editor/UIContextEditor.cs:312-338 | A script found contains the hash. A failure is a configured directory that does not exist, or an unreadable file. |
| ContextEditor.DiscoverFindsFirst | Editor/UIContextEditor.cs:310-341 | Consider all ".ts" files in the code directories, in order. Discovery returns the first that contains the hash. It returns none exactly when none contains the hash. |
| ContextEditor.FirstAcceptedConcat | Editor/UIContextEditor.cs:312-338 | Searching two listings in a row finds the first listing's hit, or else the second's, shifted by the first listing's length. |
| ContextEditor.TryFindScript | Editor/UIContextEditor.cs:310-341 | A script found becomes the context's bind file and is the discovery result, and it is recorded in the cache file. When nothing is found, the editor is untouched. No script file changes. |
| ContextEditor.SelectScript | Editor/UIContextEditor.cs:279-287 | The script chosen exists in the file system, and choosing writes no script file. The cache file may be created, and a scan records its hit there. |
| ContextEditor.CacheChoice | Editor/UIContextEditor.cs:279-287 | If the cache maps the hash to an existing file, that file is chosen with no scan, and the bind file and cache stay as they were. Otherwise the scan decides. |
| ContextEditor.Prepare | Editor/UIContextEditor.cs:261-287 | The prepared script exists, the stored prefab path is the derived one, and no script file is written. Only the cache file may be created or updated. |
| ContextEditor.PrepareLeavesCacheEntry | Editor/UIContextEditor.cs:279-287 | After preparing, the cache reads back with the hash mapped to the chosen script, whether it came from the cache or the scan. |
| ContextEditor.Rewrite | Editor/UIContextEditor.cs:289-303 | A failed rewrite writes no script file. A successful one found the region and leaves the context and cache alone. |
| ContextEditor.UpdateScriptCode | Editor/UIContextEditor.cs:259-308 | A failed update writes no script file; the cache file may have been created or updated and `bindFile` set. A successful one changes only the chosen script. |
| ContextEditor.UpdateWritesSplice | Editor/UIContextEditor.cs:289-303 | The written script is the old text with the found region replaced by the block generated for the updated context. The text before and after the region is kept. |
| ContextEditor.RegionMissWritesNothing | Editor/UIContextEditor.cs:292-302 | A script without a region for the hash makes the update fail and leaves every script file unchanged. The editor it leaves is the one the rescan left, with the found `bindFile` and its cache entry. When the rescan finds a script and the code generates, the failure is the empty-pattern `Replace`. |
| ContextEditor.RewriteIdempotent | Editor/UIContextEditor.cs:289-303 | Rewriting the same script again returns the same result and state. This holds when no node's nested context is bound to that script. |
| ContextEditor.UpdateIdempotent | Editor/UIContextEditor.cs:259-308 | A second update after a successful one changes nothing and reports the same script, given a hash without '>' and no node bound through the written script. |
| ContextEditor.ClipboardTip | Editor/UIContextEditor.cs:253-257 | The clipboard tip contains the hash, and on its own it forms a whole region for the hash. |
| BindingList.AppendNode | Editor/UIContextEditor.cs:226-238 | One dropped object adds a row (its name, itself, its Transform) at the end of the rows. Its Transform goes into the components at the same index; earlier entries stay and later ones move back. Parallel lists stay parallel. |
| BindingList.DroppedNodes | Editor/UIContextEditor.cs:216-240 | After a drop, the old rows are followed by one row per leading game object, in drop order. |
| BindingList.DroppedComponents | Editor/UIContextEditor.cs:216-240 | After a drop, the components before the insertion point stay, the list grows by one entry per leading game object, and the displaced components follow the inserted ones. |
| BindingList.DroppedTransforms | Editor/UIContextEditor.cs:216-240 | A drop inserts the Transform of each leading game object, in drop order, starting at the old row count. |
| BindingList.DroppedParallel | Editor/UIContextEditor.cs:216-240 | Dropping keeps parallel lists parallel. |
| BindingList.DropObjects | Editor/UIContextEditor.cs:216-240 | The loop equals the one-at-a-time reference. It stops at the first entry that is not a game object, keeping the earlier appends. It reports how many rows it added. |
| BindingList.DeleteNode | Editor/UIContextEditor.cs:187-199 | Deleting row k removes index k from both lists. Both lose one entry, the rest keep their relative order, and parallel lists stay parallel. |
| BindingList.DeleteUndoesDrop | Editor/UIContextEditor.cs:194-199 | Deleting the row just dropped restores the context. |
| BindingList.CurrentIndex | Editor/UIContextEditor.cs:158-163 | The popup's initial selection is the last position of the bound component among the object's components, or 0 when the component is not among them. |
| BindingList.SelectComponent | Editor/UIContextEditor.cs:148-184 | Picking the initial selection changes nothing. Any other pick binds that component at row k in both lists, and every other entry is unchanged. |
| BindingList.SelectFirstKeepsForeign | Editor/UIContextEditor.cs:158-184 | A bound component that is not among the object's components cannot be replaced by the popup's first entry. |
| BindingList.RenameField | Editor/UIContextEditor.cs:134-145 | Row k takes the new field name; its object, its component and every other row are unchanged. |
| BindingList.RenameBack | Editor/UIContextEditor.cs:134-145 | Renaming back to the old name restores the context. |
| BindingList.BindIndexAgrees | Editor/UIContextPrinter.cs:69-76 | With parallel lists, the k-th bind call has index k. It reads a runtime component that exists and that is row k's component, and requests that component's resolved type. |
| Animator.Awake | Runtime/UIAnimator.cs:17-27 | Awake subscribes the director it is given, keeping its asset and play count, and maps each timeline's name to its index. It stops with a fault exactly when an entry is empty or two names repeat. The fault names the first such entry: an empty one, or the second occurrence of a name. The names before it are mapped. |
| Animator.PrefixIndexed | Runtime/UIAnimator.cs:22-26 | The dictionary Awake builds agrees with the list. |
| Animator.Lookup | Runtime/UIAnimator.cs:31-39 | A name is playable exactly when it is a key and its index is below the list's length. |
| Animator.PlayAnim | Runtime/UIAnimator.cs:29-44 | An unknown name or stale index changes nothing. Otherwise the entry at the name's index plays, as a null asset when it is empty. A stored callback is never cleared. |
| Animator.PlayByName | Runtime/UIAnimator.cs:29-44 | While the dictionary agrees with the list, a known name plays the timeline of that name. |
| Animator.PlayAnimWithCallback | Runtime/UIAnimator.cs:46-65 | On failure the callback is invoked once, at once, not stored, and nothing plays. On success the timeline plays and the callback is stored without being invoked. |
| Animator.Stopped | Runtime/UIAnimator.cs:67-73 | While subscribed, a stop invokes the stored callback once and keeps it. |
| Animator.OnDestroy | Runtime/UIAnimator.cs:75-79 | The callback is dropped and the handler unsubscribed; the timelines and director asset stay. |
| Animator.CallbackFiresOnEveryStop | Runtime/UIAnimator.cs:67-73 | Once a callback is stored, plays without a callback keep it, and every later stop fires it again. |
| Animator.DestroyedIsSilent | Runtime/UIAnimator.cs:46-79 | After destroy, stops invoke nothing, not even a callback stored by a later successful play. The only callbacks invoked are those of failed plays with a callback, at once and in order. |
| Animator.CallbackWaitsForStop | Runtime/UIAnimator.cs:60-73 | A callback passed to a successful play is not invoked by the play. It fires at the next stop. |

## Left out

- IMGUI drawing is left out: buttons, labels, popups, dialogs and the drag-and-drop event checks. Only the list edits these widgets perform are modelled, with the popup's pick and the drop's object list as parameters.
- `Process.Start("code", …)` and the clipboard write and dialog of `TipsGoPhaseHash` are external side effects. Only the tip's text is modelled.
- `Save()`, the prefab stage, `AssetDatabase` and `NewBindHash` are opaque Unity APIs. The hash is a given string. The preview-scene assertion of line 262 is not modelled.
- Real file-system enumeration is abstracted. Each directory's listing is given in enumeration order. `Path.Combine` with `Application.dataPath` and `Path.GetFullPath` are left out, so paths are used as listed.
- Newtonsoft JSON is abstracted: the cache file is blank, a map, or text the reader rejects.
- The hash is used as a regular-expression pattern in two places. One is the discovery scan (line 326); the other is the region pattern built with `string.Format` (lines 290-291). Both are modelled as literal substring search, which agrees for the alphanumeric hashes the editor generates. A hash with pattern metacharacters behaves differently in the source.
- `\s` and `\w` are modelled on ASCII only. .NET also admits Unicode spaces and letters.
- `StartsWith` is culture-sensitive in .NET. It is modelled as an ordinal prefix test.
- Path.GetExtension treats '/' and '\' as separators (Windows behaviour); the volume separator ':' is not modelled.
- Regions.ReplaceKeepsOutside and ContextEditor.UpdateScriptCode: script files are modelled as decoded text, so the surrounding text is kept character for character, not byte for byte. `File.ReadAllText` drops a byte-order mark and decodes the file, and `File.WriteAllText` writes UTF-8 without one, so a script saved with a byte-order mark or in another encoding is re-encoded as UTF-8 on rewrite.
- A null game object in a row (DrawBindingComponent returns early) and Unity's destroyed-object "fake null" are not modelled: game objects are values.
- Component identity is modelled as value equality (type name and nested bind file). Unity compares object references.
- Component names in the popup skip types whose FullName is null, which shifts the popup's indices. This is not modelled, because a component's runtime type always has a full name.
- BindingList.DeleteNode: requires the row index to be valid for both lists. With unsynchronised lists, Unity's out-of-range delete on `lstComponents` is not modelled.
- BindingList.SelectComponent: requires the row index to be valid for both lists and the pick to be within the popup. An out-of-range `lstComponents` element is a null reference in the source.
- BindingList.DropObjects: requires `|nodes| <= |components|`. The insertion index is the row count, and Unity's insert beyond the end of `lstComponents` is not modelled.
- ContextEditor.RewriteIdempotent: assumes no node is bound through the rewritten script. Such a node's type name could change when its script is rewritten.
- The `uiAnimator` field of UIContext plays no part in the core and is left out.
- PlayableDirector playback and timing are abstracted to the current asset, a play count and the `stopped` event. A null callback passed to `PlayAnim` is not modelled: callbacks are values.
