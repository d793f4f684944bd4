/** UIEditorConfig: the editor's constants, the marker format and the binding cache. */
module EditorConfig {
  import opened Wrappers
  import opened Strings
  import opened Errors

  /** Prefab roots, consulted in this order. */
  const UIPrefabDirectory: seq<string> := ["Assets/res/ui/prefab/", "Assets/Resources/"]
  /** Script roots, scanned in this order. */
  const UICodeDirectory: seq<string> := ["../gamelua/ts/ui/"]
  const FuncGetPath: string := "GetPrefabPath"
  const FuncBindComponents: string := "BindComponents"
  const FuncGetComponent: string := "GetComponent"
  const FuncGetSubControl: string := "BindChildControl"
  /** The alternatives of `ClassUIBaseName`, the group `(UIWindow|UIControl)`. */
  const ClassUIBaseNames: seq<string> := ["UIWindow", "UIControl"]

  /** The opening marker `//<PREFAB {id}>`. */
  function OpenTag(id: string): string {
    "//<PREFAB " + id + ">"
  }

  const CloseTag: string := "//</PREFAB>"

  /** `BindHashTag` applied by string.Format to `id` and `body`. */
  function BindHashTag(id: string, body: string): string {
    OpenTag(id) + body + CloseTag
  }

  /** Both markers end in their only '>' when the id has none, so neither can overlap
      another occurrence of itself. */
  lemma TagsLastCharUnique(id: string)
    requires '>' !in id
    ensures LastCharUnique(OpenTag(id)) && LastCharUnique(CloseTag)
  {
    var open := OpenTag(id);
    assert open[..|open| - 1] == "//<PREFAB " + id;
    assert CloseTag[..|CloseTag| - 1] == "//</PREFAB";
  }

  /** The content of the cache file: empty (or a JSON null), a JSON object of hash to path,
      or text the JSON reader rejects. `None` at the use sites means the file does not exist. */
  datatype CacheDoc = Blank | Entries(entries: map<string, string>) | Unparseable

  /** EnsureCacheFile: create an empty file when there is none. */
  function EnsureCacheFile(file: Option<CacheDoc>): CacheDoc {
    match file
    case None => Blank
    case Some(doc) => doc
  }

  /** ReadBindingCache: the file after `EnsureCacheFile`, and the map it holds. */
  function ReadBindingCache(file: Option<CacheDoc>): (r: (CacheDoc, Result<map<string, string>, Error>))
    ensures r.1.Failure? <==> file == Some(Unparseable)
    ensures r.1.Failure? ==> r.1.error == CorruptCache
  {
    var doc := EnsureCacheFile(file);
    match doc
    case Blank => (doc, Success(map[]))
    case Entries(m) => (doc, Success(m))
    case Unparseable => (doc, Failure(CorruptCache))
  }

  /** SaveBindingCache: the whole map is written back, whatever the file held. */
  function SaveBindingCache(m: map<string, string>): CacheDoc {
    Entries(m)
  }

  /** Lines 333-335 of the editor: read the cache, set `hash`, save. */
  function RecordBinding(file: Option<CacheDoc>, hash: string, path: string): (r: (CacheDoc, Result<(), Error>))
    ensures r.1.Success? <==> file != Some(Unparseable)
    ensures r.1.Failure? ==> r.0 == Unparseable
  {
    var (doc, m) := ReadBindingCache(file);
    match m
    case Failure(e) => (doc, Failure(e))
    case Success(m) => (SaveBindingCache(m[hash := path]), Success(()))
  }

  /** A missing file is created empty, an existing one is left alone, and doing it again
      changes nothing. */
  lemma EnsureCacheFileKeeps(file: Option<CacheDoc>)
    ensures file.Some? ==> EnsureCacheFile(file) == file.value
    ensures file.None? ==> EnsureCacheFile(file) == Blank
    ensures EnsureCacheFile(Some(EnsureCacheFile(file))) == EnsureCacheFile(file)
  {
  }

  /** A missing or empty cache reads as the empty map, not as an error. */
  lemma MissingCacheReadsEmpty(file: Option<CacheDoc>)
    requires file == None || file == Some(Blank)
    ensures ReadBindingCache(file) == (Blank, Success(map[]))
  {
  }

  /** Saving then reading returns exactly the saved map. */
  lemma SaveThenRead(m: map<string, string>)
    ensures ReadBindingCache(Some(SaveBindingCache(m))) == (Entries(m), Success(m))
  {
  }

  /** After recording `hash -> path`, a lookup of `hash` yields `path` and every other key
      keeps its previous value. */
  lemma RecordThenLookup(file: Option<CacheDoc>, hash: string, path: string, m: map<string, string>)
    requires ReadBindingCache(file).1 == Success(m)
    ensures RecordBinding(file, hash, path).1.Success?
    ensures var (doc', m') := ReadBindingCache(Some(RecordBinding(file, hash, path).0));
      && m'.Success?
      && hash in m'.value && m'.value[hash] == path
      && m'.value.Keys == m.Keys + {hash}
      && forall k :: k in m && k != hash ==> m'.value[k] == m[k]
  {
  }
}
