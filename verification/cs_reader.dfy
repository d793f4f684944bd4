/** A reader for the block GenerateCsCode writes, the partner of that generator. */
module CsReader {
  import opened Wrappers
  import opened Strings
  import opened Contexts
  import opened EditorConfig
  import opened Regions
  import opened Printer
  import opened TsReader

  /** What a C# block says: its field declarations (type segment and name), the path the
      accessor returns and the statements of the bind method. */
  datatype CsSection = CsSection(fields: seq<Binding>, prefabPath: string, calls: seq<BindCall>)

  /** Names a reader can delimit in the C# layout. */
  predicate CsDelimited(b: Binding) {
    && ' ' !in b.fieldName && ';' !in b.fieldName && '(' !in b.fieldName
    && ' ' !in b.typeName && '(' !in b.typeName && '>' !in b.typeName
  }

  function ParseCsFieldLine(s: string, eol: LineEnding): (r: Option<(Binding, string)>)
    ensures r.Some? ==> |r.value.1| < |s|
  {
    var s1 :- Expect(s, "\t");
    var t :- SplitBefore(s1, ' ');
    var s2 :- Expect(t.1, " ");
    var f :- SplitBefore(s2, ';');
    var s3 :- Expect(f.1, ";" + eol.Text());
    Some((Binding(f.0, t.0), s3))
  }

  /** Field declarations up to the accessor's header. */
  function ParseCsFieldLines(s: string, eol: LineEnding): (r: Option<(seq<Binding>, string)>)
    decreases |s|
  {
    if StartsWith(s, CsPathHead(eol)) then Some(([], s))
    else
      match ParseCsFieldLine(s, eol)
      case None => None
      case Some(a) =>
        match ParseCsFieldLines(a.1, eol)
        case None => None
        case Some(more) => Some(([a.0] + more.0, more.1))
  }

  function ParseCsBody(s: string, eol: LineEnding): Option<CsSection> {
    var s1 :- Expect(s, eol.Text());
    var fields :- ParseCsFieldLines(s1, eol);
    var s2 :- Expect(fields.1, CsPathHead(eol));
    var path :- SplitBefore(s2, '"');
    var s3 :- Expect(path.1, CsPathFoot(eol));
    var calls :- ParseBindLines(s3, eol);
    if calls.1 == TsTail(eol) then Some(CsSection(fields.0, path.0, calls.0)) else None
  }

  /** Characters of the last segment come from the whole name. */
  lemma LastSegmentChars(s: string, ch: char)
    requires ch !in s
    ensures ch !in LastSegment(s)
  {
    var r := LastSegment(s);
    forall j | 0 <= j < |r| ensures r[j] != ch {
      assert r[j] == s[|s| - |r| + j];
    }
  }

  /** A line whose first ';' comes before any '(' cannot start with a ';'-free head that has
      a '(' at `j`. */
  lemma NotHeadBeforeSemicolon(u: string, w: string, head: string, j: nat)
    requires j < |head| && head[j] == '(' && ';' !in head && '(' !in u
    ensures !StartsWith(u + [';'] + w, head)
  {
    var s := u + [';'] + w;
    if |head| <= |s| {
      var i := if j < |u| then j else |u|;
      assert s[i] != head[i];
      assert s[..|head|][i] != head[i];
    }
  }

  lemma CsDeclRoundTrip(b: Binding, eol: LineEnding, rest: string)
    requires ' ' !in b.typeName && ';' !in b.fieldName
    ensures ParseCsFieldLine(CsDeclLine(b, eol) + rest, eol) == Some((b, rest))
  {
    var e := eol.Text();
    var s3 := (";" + e) + rest;
    var s2 := b.fieldName + s3;
    var s1 := b.typeName + (" " + s2);
    assert CsDeclLine(b, eol) + rest == "\t" + s1;
    ExpectConcat("\t", s1);
    SplitBeforeAt(b.typeName, " " + s2, ' ');
    ExpectConcat(" ", s2);
    SplitBeforeAt(b.fieldName, s3, ';');
    ExpectConcat(";" + e, rest);
  }

  /** A declaration line is never taken for the accessor's header. */
  lemma CsDeclNotHead(b: Binding, eol: LineEnding, rest: string)
    requires '(' !in b.typeName && '(' !in b.fieldName
    ensures !StartsWith(CsDeclLine(b, eol) + rest, CsPathHead(eol))
  {
    var e := eol.Text();
    var head := CsPathHead(eol);
    var u := "\t" + b.typeName + " " + b.fieldName;
    assert '(' !in u;
    assert CsDeclLine(b, eol) + rest == u + [';'] + (e + rest);
    var j := |"\tpublic override string " + FuncGetPath|;
    assert head[j] == '(';
    NotHeadBeforeSemicolon(u, e + rest, head, j);
  }

  lemma ParseCsFieldLinesCons(s: string, eol: LineEnding, tail: string, fs: seq<Binding>, rest: string)
    requires !StartsWith(s, CsPathHead(eol)) && |fs| > 0
    requires ParseCsFieldLine(s, eol) == Some((fs[0], tail))
    requires ParseCsFieldLines(tail, eol) == Some((fs[1..], rest))
    ensures ParseCsFieldLines(s, eol) == Some((fs, rest))
  {
    assert [fs[0]] + fs[1..] == fs;
  }

  /** Declarations written one per line read back as the same declarations. */
  lemma {:induction false} CsDeclLinesRoundTrip(fs: seq<Binding>, eol: LineEnding, rest: string)
    requires forall k :: 0 <= k < |fs| ==> ' ' !in fs[k].typeName && ';' !in fs[k].fieldName
    requires forall k :: 0 <= k < |fs| ==> '(' !in fs[k].typeName && '(' !in fs[k].fieldName
    requires StartsWith(rest, CsPathHead(eol))
    ensures ParseCsFieldLines(CsDeclLines(fs, eol) + rest, eol) == Some((fs, rest))
    decreases |fs|
  {
    if fs == [] {
      assert CsDeclLines(fs, eol) + rest == rest;
    } else {
      var line := CsDeclLine(fs[0], eol);
      var tail := CsDeclLines(fs[1..], eol) + rest;
      var s := CsDeclLines(fs, eol) + rest;
      ConcatAssoc(line, CsDeclLines(fs[1..], eol), rest);
      CsDeclRoundTrip(fs[0], eol, tail);
      CsDeclNotHead(fs[0], eol, tail);
      CsDeclLinesRoundTrip(fs[1..], eol, rest);
      ParseCsFieldLinesCons(s, eol, tail, fs, rest);
    }
  }

  lemma ParseCsBodyStages(s: string, eol: LineEnding, s1: string, fs: seq<Binding>, r1: string, s2: string,
                          path: string, r2: string, s3: string, calls: seq<BindCall>)
    requires Expect(s, eol.Text()) == Some(s1)
    requires ParseCsFieldLines(s1, eol) == Some((fs, r1))
    requires Expect(r1, CsPathHead(eol)) == Some(s2)
    requires SplitBefore(s2, '"') == Some((path, r2))
    requires Expect(r2, CsPathFoot(eol)) == Some(s3)
    requires ParseBindLines(s3, eol) == Some((calls, TsTail(eol)))
    ensures ParseCsBody(s, eol) == Some(CsSection(fs, path, calls))
  {
  }

  /** The cut declarations keep the delimiters out of their names. */
  lemma CsFieldsDelimited(bs: seq<Binding>)
    requires forall k :: 0 <= k < |bs| ==> CsDelimited(bs[k])
    ensures forall k :: 0 <= k < |bs| ==> CsFields(bs)[k] == Binding(bs[k].fieldName, LastSegment(bs[k].typeName))
    ensures forall k :: 0 <= k < |bs| ==> ' ' !in CsFields(bs)[k].typeName && ';' !in CsFields(bs)[k].fieldName
    ensures forall k :: 0 <= k < |bs| ==> '(' !in CsFields(bs)[k].typeName && '(' !in CsFields(bs)[k].fieldName
  {
    forall k | 0 <= k < |bs|
      ensures ' ' !in LastSegment(bs[k].typeName) && '(' !in LastSegment(bs[k].typeName)
    {
      LastSegmentChars(bs[k].typeName, ' ');
      LastSegmentChars(bs[k].typeName, '(');
    }
  }

  lemma CsFieldsStage(nodes: seq<UIComponentNode>, bs: seq<Binding>, prefabPath: string, eol: LineEnding)
    requires |bs| == |nodes| && forall k :: 0 <= k < |nodes| ==> nodes[k].component.Some?
    requires forall k :: 0 <= k < |bs| ==> CsDelimited(bs[k])
    ensures var r1 := CsMiddle(prefabPath, eol) + (CallLines(CsCalls(nodes, bs), eol) + TsTail(eol));
      && Expect(CsBody(nodes, bs, prefabPath, eol), eol.Text()) == Some(CsDeclLines(CsFields(bs), eol) + r1)
      && ParseCsFieldLines(CsDeclLines(CsFields(bs), eol) + r1, eol) == Some((CsFields(bs), r1))
  {
    var x := CallLines(CsCalls(nodes, bs), eol) + TsTail(eol);
    var r1 := CsMiddle(prefabPath, eol) + x;
    ExpectConcat(eol.Text(), CsDeclLines(CsFields(bs), eol) + r1);
    ConcatAssoc(CsPathHead(eol), prefabPath + CsPathFoot(eol), x);
    ExpectConcat(CsPathHead(eol), (prefabPath + CsPathFoot(eol)) + x);
    CsFieldsDelimited(bs);
    CsDeclLinesRoundTrip(CsFields(bs), eol, r1);
  }

  lemma CsPathStage(x: string, prefabPath: string, eol: LineEnding)
    requires '"' !in prefabPath
    ensures var foot := CsPathFoot(eol);
      && Expect(CsMiddle(prefabPath, eol) + x, CsPathHead(eol)) == Some(prefabPath + (foot + x))
      && SplitBefore(prefabPath + (foot + x), '"') == Some((prefabPath, foot + x))
      && Expect(foot + x, foot) == Some(x)
  {
    var head, foot := CsPathHead(eol), CsPathFoot(eol);
    ConcatAssoc(head, prefabPath + foot, x);
    ConcatAssoc(prefabPath, foot, x);
    ExpectConcat(head, prefabPath + (foot + x));
    assert (foot + x)[0] == '"';
    SplitBeforeAt(prefabPath, foot + x, '"');
    ExpectConcat(foot, x);
  }

  lemma CsCallsStage(nodes: seq<UIComponentNode>, bs: seq<Binding>, eol: LineEnding)
    requires |bs| == |nodes| && forall k :: 0 <= k < |nodes| ==> nodes[k].component.Some?
    requires forall k :: 0 <= k < |bs| ==> CsDelimited(bs[k])
    ensures ParseBindLines(CallLines(CsCalls(nodes, bs), eol) + TsTail(eol), eol) == Some((CsCalls(nodes, bs), TsTail(eol)))
  {
    CsCallsDelimited(nodes, bs);
    TailIsNoCall(eol);
    CallLinesRoundTrip(CsCalls(nodes, bs), eol, TsTail(eol));
  }

  lemma CsCallsDelimited(nodes: seq<UIComponentNode>, bs: seq<Binding>)
    requires |bs| == |nodes| && forall k :: 0 <= k < |nodes| ==> nodes[k].component.Some?
    requires forall k :: 0 <= k < |bs| ==> CsDelimited(bs[k])
    ensures forall k :: 0 <= k < |nodes| ==> CallDelimited(CsCalls(nodes, bs)[k])
  {
    var cs := CsCalls(nodes, bs);
    forall k | 0 <= k < |nodes| ensures CallDelimited(cs[k]) {
      assert cs[k].fieldName == bs[k].fieldName && cs[k].typeName == LastSegment(bs[k].typeName);
      assert '<' !in cs[k].accessor by {
        CsAccessorPlain(nodes[k].component.value);
      }
      LastSegmentChars(bs[k].typeName, '>');
    }
  }

  lemma CsAccessorPlain(c: Component)
    ensures '<' !in CsAccessor(c)
  {
  }

  /** Reading a generated C# body gives back each field with its last type segment, the path,
      and one statement per node that binds nested contexts with BindChildControl and every
      other component with GetComponent, at the node's own index. */
  lemma CsBodyRoundTrip(nodes: seq<UIComponentNode>, bs: seq<Binding>, prefabPath: string, eol: LineEnding)
    requires |bs| == |nodes| && forall k :: 0 <= k < |nodes| ==> nodes[k].component.Some?
    requires forall k :: 0 <= k < |bs| ==> CsDelimited(bs[k])
    requires '"' !in prefabPath
    ensures ParseCsBody(CsBody(nodes, bs, prefabPath, eol), eol) == Some(CsSection(CsFields(bs), prefabPath, CsCalls(nodes, bs)))
  {
    var x := CallLines(CsCalls(nodes, bs), eol) + TsTail(eol);
    var r1 := CsMiddle(prefabPath, eol) + x;
    var s1 := CsDeclLines(CsFields(bs), eol) + r1;
    var s2 := prefabPath + (CsPathFoot(eol) + x);
    CsFieldsStage(nodes, bs, prefabPath, eol);
    CsPathStage(x, prefabPath, eol);
    CsCallsStage(nodes, bs, eol);
    ParseCsBodyStages(CsBody(nodes, bs, prefabPath, eol), eol, s1, CsFields(bs), r1, s2, prefabPath, CsPathFoot(eol) + x, x, CsCalls(nodes, bs));
  }

  /** Names the reader can delimit in every line GenerateCsCode writes for `ctx`. */
  predicate CsPrintable(ctx: UIContext) {
    && '"' !in ctx.prefabPath
    && forall k :: 0 <= k < |ctx.nodes| ==>
      && ' ' !in ctx.nodes[k].fieldName && ';' !in ctx.nodes[k].fieldName && '(' !in ctx.nodes[k].fieldName
      && (ctx.nodes[k].component.Some? ==>
          var t := ctx.nodes[k].component.value.fullTypeName;
          ' ' !in t && '(' !in t && '>' !in t)
  }

  /** The statements for resolved nodes, entry by entry: one per node at the node's index,
      BindChildControl exactly for nested contexts, and the last segment of the type. */
  lemma CsCallsShape(ctx: UIContext, files: map<string, string>)
    requires Resolve(ctx.nodes, files).Success?
    ensures var calls := CsCalls(ctx.nodes, Resolve(ctx.nodes, files).value);
      && |calls| == |ctx.nodes|
      && forall k :: 0 <= k < |calls| ==>
        && calls[k].index == k
        && calls[k].fieldName == ctx.nodes[k].fieldName
        && (calls[k].accessor == FuncGetSubControl <==> ctx.nodes[k].component.value.IsUIContext())
        && calls[k].typeName == LastSegment(TypeName(ctx.nodes[k].component.value, files))
  {
  }

  /** The C# block is framed like the TypeScript one and its interior reads back as the cut
      declarations, the prefab path and the statements CsCalls describes. */
  lemma GeneratedCsCodeReadsBack(ctx: UIContext, files: map<string, string>, eol: LineEnding)
    requires GenerateCsCode(ctx, files, eol).Success?
    requires CsPrintable(ctx)
    ensures var code := GenerateCsCode(ctx, files, eol).value;
      var bs := Resolve(ctx.nodes, files).value;
      var calls := CsCalls(ctx.nodes, bs);
      && FindRegion(code, ctx.bindHash) == Some(Region(0, |code|))
      && ParseCsBody(code[|OpenTag(ctx.bindHash)|..|code| - |CloseTag|], eol) == Some(CsSection(CsFields(bs), ctx.prefabPath, calls))
  {
    var bs := Resolve(ctx.nodes, files).value;
    ResolvedCsDelimited(ctx, files);
    CsBlockReadsBack(ctx.nodes, bs, ctx.prefabPath, ctx.bindHash, eol);
  }

  lemma ResolvedCsDelimited(ctx: UIContext, files: map<string, string>)
    requires Resolve(ctx.nodes, files).Success? && CsPrintable(ctx)
    ensures var bs := Resolve(ctx.nodes, files).value;
      forall k :: 0 <= k < |bs| ==> CsDelimited(bs[k])
  {
    var bs := Resolve(ctx.nodes, files).value;
    forall k | 0 <= k < |bs| ensures CsDelimited(bs[k]) {
      var c := ctx.nodes[k].component.value;
      assert bs[k] == Binding(ctx.nodes[k].fieldName, TypeName(c, files));
      TypeNameAvoids(c, files, ' ');
      TypeNameAvoids(c, files, '(');
      TypeNameAvoids(c, files, '>');
    }
  }

  lemma CsBlockReadsBack(nodes: seq<UIComponentNode>, bs: seq<Binding>, prefabPath: string, hash: string, eol: LineEnding)
    requires |bs| == |nodes| && forall k :: 0 <= k < |nodes| ==> nodes[k].component.Some?
    requires forall k :: 0 <= k < |bs| ==> CsDelimited(bs[k])
    requires '"' !in prefabPath
    ensures var code := BindHashTag(hash, CsBody(nodes, bs, prefabPath, eol));
      && FindRegion(code, hash) == Some(Region(0, |code|))
      && ParseCsBody(code[|OpenTag(hash)|..|code| - |CloseTag|], eol) == Some(CsSection(CsFields(bs), prefabPath, CsCalls(nodes, bs)))
  {
    CsBodyRoundTrip(nodes, bs, prefabPath, eol);
    TagIsRegion(hash, CsBody(nodes, bs, prefabPath, eol));
  }
}
