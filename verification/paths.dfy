/** File-name handling the editor takes from System.IO.Path. */
module Paths {

  /** Directory separators recognised when looking for an extension ('/' and '\'). */
  predicate IsSeparator(c: char) {
    c == '/' || c == '\\'
  }

  /** `path[k..]` is an extension: a dot that is not the last character, followed only by
      characters that are neither dots nor separators. */
  ghost predicate ExtensionAt(path: string, k: nat) {
    && k + 1 < |path|
    && path[k] == '.'
    && forall j :: k < j < |path| ==> path[j] != '.' && !IsSeparator(path[j])
  }

  /** Path.GetExtension: scan back from the end; a dot yields the extension (or "" when the
      dot is the last character), a separator or the start of the string yields "". */
  function Extension(path: string): (r: string)
    ensures r != "" <==> exists k: nat :: ExtensionAt(path, k)
    ensures forall k: nat :: ExtensionAt(path, k) ==> r == path[k..]
  {
    ExtensionBelow(path, |path|)
  }

  function ExtensionBelow(path: string, n: nat): (r: string)
    requires n <= |path|
    requires forall j :: n <= j < |path| ==> path[j] != '.' && !IsSeparator(path[j])
    ensures r != "" <==> exists k: nat :: k < n && ExtensionAt(path, k)
    ensures forall k: nat :: k < n && ExtensionAt(path, k) ==> r == path[k..]
    decreases n
  {
    if n == 0 then ""
    else if path[n - 1] == '.' then (if n == |path| then "" else assert ExtensionAt(path, n - 1); path[n - 1..])
    else if IsSeparator(path[n - 1]) then ""
    else ExtensionBelow(path, n - 1)
  }

  /** The extension of `stem + "." + e` is `"." + e` whenever `e` is a plain, non-empty suffix. */
  lemma ExtensionOfStem(stem: string, e: string)
    requires e != []
    requires forall c :: c in e ==> c != '.' && !IsSeparator(c)
    ensures Extension(stem + "." + e) == "." + e
  {
    var path := stem + "." + e;
    assert path[|stem|] == '.';
    forall j | |stem| < j < |path| ensures path[j] != '.' && !IsSeparator(path[j]) {
      assert path[j] == e[j - |stem| - 1] && e[j - |stem| - 1] in e;
    }
    assert ExtensionAt(path, |stem|);
    assert path[|stem|..] == "." + e;
  }
}
