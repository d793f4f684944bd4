// The type-name regex of Editor/UIContextPrinter.cs, line 30:
// `class\s+(\w+)\s+extends\s+(UIWindow|UIControl)`, matched leftmost-first, group 1 captured.
module ClassMatch {
  import opened Wrappers
  import opened Strings
  import opened EditorConfig

  datatype CharClass = Space | Word

  /** `\s` and `\w`, restricted to ASCII. */
  predicate InClass(c: char, k: CharClass) {
    match k
    case Space => c == ' ' || c == '\t' || c == '\n' || c == '\r' || c as int == 11 || c as int == 12
    case Word => 'a' <= c <= 'z' || 'A' <= c <= 'Z' || '0' <= c <= '9' || c == '_'
  }

  predicate AllIn(s: string, lo: nat, hi: nat, k: CharClass)
    requires lo <= hi <= |s|
  {
    forall j {:trigger InClass(s[j], k)} :: lo <= j < hi ==> InClass(s[j], k)
  }

  /** Length of the longest run of class `k` starting at `from`. */
  function Run(s: string, from: nat, k: CharClass): (n: nat)
    requires from <= |s|
    ensures from + n <= |s| && AllIn(s, from, from + n, k)
    ensures from + n == |s| || !InClass(s[from + n], k)
    decreases |s| - from
  {
    if from < |s| && InClass(s[from], k) then 1 + Run(s, from + 1, k) else 0
  }

  /** A run of class `k` that stops before a character outside `k` is the longest run. */
  lemma {:induction false} RunExact(s: string, from: nat, to: nat, k: CharClass)
    requires from <= to <= |s| && AllIn(s, from, to, k)
    requires to == |s| || !InClass(s[to], k)
    ensures Run(s, from, k) == to - from
    decreases |s| - from
  {
    if from < to {
      RunExact(s, from + 1, to, k);
    }
  }

  predicate BaseClassAt(s: string, f: nat) {
    OccursAt(s, f, ClassUIBaseNames[0]) || OccursAt(s, f, ClassUIBaseNames[1])
  }

  /** The declarative reading of the pattern: `class`, spaces `[i+5, b)`, the captured word
      `[b, c)`, spaces `[c, d)`, `extends`, spaces `[d+7, f)`, and a base class name at `f`. */
  ghost predicate ClassDeclAt(s: string, i: nat, b: nat, c: nat, d: nat, f: nat) {
    && OccursAt(s, i, "class")
    && i + 5 < b < c < d && d + 7 < f <= |s|
    && AllIn(s, i + 5, b, Space)
    && AllIn(s, b, c, Word)
    && AllIn(s, c, d, Space)
    && OccursAt(s, d, "extends")
    && AllIn(s, d + 7, f, Space)
    && BaseClassAt(s, f)
  }

  ghost predicate HasDeclAt(s: string, i: nat) {
    exists b: nat, c: nat, d: nat, f: nat :: ClassDeclAt(s, i, b, c, d, f)
  }

  /** The end of a non-empty longest run of class `k` starting at `from`. */
  function AfterRun(s: string, from: nat, k: CharClass): (r: Option<nat>)
    requires from <= |s|
    ensures r.Some? ==> from < r.value <= |s| && AllIn(s, from, r.value, k)
  {
    var n := Run(s, from, k);
    if n == 0 then None else Some(from + n)
  }

  lemma AfterRunExact(s: string, from: nat, to: nat, k: CharClass)
    requires from < to <= |s| && AllIn(s, from, to, k)
    requires to == |s| || !InClass(s[to], k)
    ensures AfterRun(s, from, k) == Some(to)
  {
    RunExact(s, from, to, k);
  }

  /** The match attempt at `i`. Backtracking cannot change the outcome: each `\s+` and `\w+`
      is followed by a character its class excludes, so only the longest runs can succeed. */
  function ClassMatchAt(s: string, i: nat): (r: Option<string>)
    requires i <= |s|
  {
    if !OccursAt(s, i, "class") then None else MatchName(s, i + 5)
  }

  /** `\s+(\w+)` from `from`, then the rest of the pattern. */
  function MatchName(s: string, from: nat): (r: Option<string>)
    requires from <= |s|
  {
    match AfterRun(s, from, Space)
    case None => None
    case Some(b) => match AfterRun(s, b, Word)
    case None => None
    case Some(c) => MatchExtends(s, b, c)
  }

  /** `\s+extends` after the captured word `[b, c)`, then the rest of the pattern. */
  function MatchExtends(s: string, b: nat, c: nat): (r: Option<string>)
    requires b <= c <= |s|
  {
    match AfterRun(s, c, Space)
    case None => None
    case Some(d) => if !OccursAt(s, d, "extends") then None else MatchBase(s, b, c, d + 7)
  }

  /** `\s+(UIWindow|UIControl)` from `from`, capturing `[b, c)` on success. */
  function MatchBase(s: string, b: nat, c: nat, from: nat): (r: Option<string>)
    requires b <= c <= |s| && from <= |s|
  {
    match AfterRun(s, from, Space)
    case None => None
    case Some(f) => if BaseClassAt(s, f) then Some(s[b..c]) else None
  }

  /** The match attempt succeeds exactly when the declarative pattern holds at `i`, and it
      captures the word of any such declaration. */
  lemma ClassMatchAtSound(s: string, i: nat)
    requires i <= |s|
    ensures ClassMatchAt(s, i).Some? <==> HasDeclAt(s, i)
    ensures forall b: nat, c: nat, d: nat, f: nat ::
      ClassDeclAt(s, i, b, c, d, f) ==> ClassMatchAt(s, i) == Some(s[b..c])
  {
    if ClassMatchAt(s, i).Some? {
      MatchGivesDecl(s, i);
    }
    forall b: nat, c: nat, d: nat, f: nat | ClassDeclAt(s, i, b, c, d, f)
      ensures ClassMatchAt(s, i) == Some(s[b..c])
    {
      DeclDeterminesMatch(s, i, b, c, d, f);
    }
  }

  lemma MatchGivesDecl(s: string, i: nat)
    requires i <= |s| && ClassMatchAt(s, i).Some?
    ensures HasDeclAt(s, i)
  {
    assert OccursAt(s, i, "class") && MatchName(s, i + 5).Some?;
    var b, c, d, f := NameParts(s, i + 5);
    assert ClassDeclAt(s, i, b, c, d, f);
  }

  /** The runs, keyword and base class name a successful match from `\s+(\w+)` on consumed. */
  lemma NameParts(s: string, from: nat) returns (b: nat, c: nat, d: nat, f: nat)
    requires from <= |s| && MatchName(s, from).Some?
    ensures from < b < c < d && d + 7 < f <= |s|
    ensures AllIn(s, from, b, Space) && AllIn(s, b, c, Word)
    ensures AllIn(s, c, d, Space) && OccursAt(s, d, "extends")
    ensures AllIn(s, d + 7, f, Space) && BaseClassAt(s, f)
  {
    b := AfterRun(s, from, Space).value;
    c := AfterRun(s, b, Word).value;
    d, f := ExtendsParts(s, b, c);
  }

  /** The runs, keyword and base class name a successful match from `\s+extends` on consumed. */
  lemma ExtendsParts(s: string, b: nat, c: nat) returns (d: nat, f: nat)
    requires b <= c <= |s| && MatchExtends(s, b, c).Some?
    ensures c < d && d + 7 < f <= |s| && AllIn(s, c, d, Space) && OccursAt(s, d, "extends")
    ensures AllIn(s, d + 7, f, Space) && BaseClassAt(s, f)
  {
    d := AfterRun(s, c, Space).value;
    f := BaseParts(s, b, c, d + 7);
  }

  /** The run and the base class name a successful final step consumed. */
  lemma BaseParts(s: string, b: nat, c: nat, from: nat) returns (f: nat)
    requires b <= c <= |s| && from <= |s| && MatchBase(s, b, c, from).Some?
    ensures from < f <= |s| && AllIn(s, from, f, Space) && BaseClassAt(s, f)
  {
    f := AfterRun(s, from, Space).value;
  }

  lemma DeclDeterminesMatch(s: string, i: nat, b: nat, c: nat, d: nat, f: nat)
    requires ClassDeclAt(s, i, b, c, d, f)
    ensures ClassMatchAt(s, i) == Some(s[b..c])
  {
    assert RunEndsAt(s, i + 5, Space, b) by {
      SpaceWordDisjoint(s[b]);
      AfterRunExact(s, i + 5, b, Space);
    }
    assert RunEndsAt(s, b, Word, c) by {
      SpaceWordDisjoint(s[c]);
      AfterRunExact(s, b, c, Word);
    }
    assert RunEndsAt(s, c, Space, d) by {
      assert s[d] == "extends"[0];
      AfterRunExact(s, c, d, Space);
    }
    assert RunEndsAt(s, d + 7, Space, f) by {
      BaseClassStartsWithU(s, f);
      AfterRunExact(s, d + 7, f, Space);
    }
    MatchFromRuns(s, i, b, c, d, f);
  }

  /** The longest non-empty run of class `k` from `from` ends at `to`. */
  predicate RunEndsAt(s: string, from: nat, k: CharClass, to: nat)
    requires from <= |s|
  {
    AfterRun(s, from, k).Some? && AfterRun(s, from, k).value == to
  }

  /** The match attempt read off the ends of its four runs. */
  lemma MatchFromRuns(s: string, i: nat, b: nat, c: nat, d: nat, f: nat)
    requires i + 5 <= |s| && OccursAt(s, i, "class")
    requires RunEndsAt(s, i + 5, Space, b) && RunEndsAt(s, b, Word, c)
    requires RunEndsAt(s, c, Space, d) && d + 7 <= |s| && OccursAt(s, d, "extends")
    requires RunEndsAt(s, d + 7, Space, f) && BaseClassAt(s, f)
    ensures ClassMatchAt(s, i) == Some(s[b..c])
  {
    var m := s[b..c];
    assert MatchBase(s, b, c, d + 7) == Some(m) by {
      BaseStep(s, b, c, d + 7, f);
    }
    assert MatchExtends(s, b, c) == Some(m) by {
      ExtendsStep(s, b, c, d, m);
    }
    NameStep(s, i + 5, b, c, m);
  }

  /** Each stage of the match attempt, given where its runs end. */
  lemma BaseStep(s: string, b: nat, c: nat, from: nat, f: nat)
    requires b <= c <= |s| && from <= |s|
    requires RunEndsAt(s, from, Space, f) && BaseClassAt(s, f)
    ensures MatchBase(s, b, c, from) == Some(s[b..c])
  {
  }

  lemma ExtendsStep(s: string, b: nat, c: nat, d: nat, m: string)
    requires b <= c <= |s| && d + 7 <= |s|
    requires RunEndsAt(s, c, Space, d) && OccursAt(s, d, "extends") && MatchBase(s, b, c, d + 7) == Some(m)
    ensures MatchExtends(s, b, c) == Some(m)
  {
  }

  lemma NameStep(s: string, from: nat, b: nat, c: nat, m: string)
    requires from <= |s| && b <= c <= |s|
    requires RunEndsAt(s, from, Space, b) && RunEndsAt(s, b, Word, c) && MatchExtends(s, b, c) == Some(m)
    ensures MatchName(s, from) == Some(m)
  {
  }

  lemma BaseClassStartsWithU(s: string, f: nat)
    requires BaseClassAt(s, f)
    ensures f < |s| && s[f] == 'U'
  {
    if OccursAt(s, f, ClassUIBaseNames[0]) {
      assert s[f] == ClassUIBaseNames[0][0];
    } else {
      assert s[f] == ClassUIBaseNames[1][0];
    }
  }

  lemma SpaceWordDisjoint(ch: char)
    ensures !(InClass(ch, Space) && InClass(ch, Word))
  {
  }

  /** The leftmost position at or after `from` where the pattern matches. */
  function FirstDeclFrom(s: string, from: nat): (r: Option<nat>)
    requires from <= |s|
    ensures r.Some? ==> from <= r.value <= |s| && ClassMatchAt(s, r.value).Some?
    ensures r.Some? ==> forall k: nat :: from <= k < r.value ==> ClassMatchAt(s, k).None?
    ensures r.None? ==> forall k: nat :: from <= k <= |s| ==> ClassMatchAt(s, k).None?
    decreases |s| - from
  {
    if ClassMatchAt(s, from).Some? then Some(from)
    else if from == |s| then None
    else FirstDeclFrom(s, from + 1)
  }

  /** Regex.Match(...).Groups[1].Value when the match succeeds. */
  function FirstClassName(s: string): Option<string> {
    match FirstDeclFrom(s, 0)
    case None => None
    case Some(i) => ClassMatchAt(s, i)
  }

  /** The captured name is the word of the leftmost declaration in the text, and there is
      none exactly when no declaration occurs anywhere. */
  lemma FirstClassNameSpec(s: string)
    ensures FirstClassName(s).None? <==> forall i: nat :: i <= |s| ==> !HasDeclAt(s, i)
    ensures forall i: nat, b: nat, c: nat, d: nat, f: nat ::
      ClassDeclAt(s, i, b, c, d, f) && (forall k: nat :: k < i ==> !HasDeclAt(s, k))
      ==> FirstClassName(s) == Some(s[b..c])
  {
    forall i: nat | i <= |s| ensures ClassMatchAt(s, i).Some? <==> HasDeclAt(s, i) {
      ClassMatchAtSound(s, i);
    }
    forall i: nat, b: nat, c: nat, d: nat, f: nat |
      ClassDeclAt(s, i, b, c, d, f) && (forall k: nat :: k < i ==> !HasDeclAt(s, k))
      ensures FirstClassName(s) == Some(s[b..c])
    {
      ClassMatchAtSound(s, i);
      var r := FirstDeclFrom(s, 0);
      assert r.Some? && r.value <= i;
      assert r.value == i;
    }
  }

  /** A captured name is a non-empty word: no dots, semicolons or angle brackets. */
  lemma ClassNameIsWord(s: string)
    requires FirstClassName(s).Some?
    ensures var n := FirstClassName(s).value;
      |n| > 0 && forall ch :: ch in n ==> InClass(ch, Word)
  {
    CapturedIsWord(s, FirstDeclFrom(s, 0).value);
  }

  lemma CapturedIsWord(s: string, i: nat)
    requires i <= |s| && ClassMatchAt(s, i).Some?
    ensures var n := ClassMatchAt(s, i).value;
      |n| > 0 && forall ch :: ch in n ==> InClass(ch, Word)
  {
    var b := AfterRun(s, i + 5, Space).value;
    var c := AfterRun(s, b, Word).value;
    assert ClassMatchAt(s, i).value == s[b..c];
    WordSlice(s, b, c);
  }

  lemma WordSlice(s: string, b: nat, c: nat)
    requires b < c <= |s| && AllIn(s, b, c, Word)
    ensures |s[b..c]| > 0 && forall ch :: ch in s[b..c] ==> InClass(ch, Word)
  {
    forall ch | ch in s[b..c] ensures InClass(ch, Word) {
      var j :| 0 <= j < c - b && s[b..c][j] == ch;
      assert s[b + j] == ch;
    }
  }
}
