/** A reader for the block GenerateTsCode writes: the partner that shows the generated text
    determines the bindings it was generated from. */
module TsReader {
  import opened Wrappers
  import opened Strings
  import opened Decimal
  import opened Contexts
  import opened EditorConfig
  import opened Regions
  import opened Printer
  import ClassMatch

  /** What a generated block says: its field declarations, the path the accessor returns and
      the statements of the bind method. */
  datatype TsSection = TsSection(fields: seq<Binding>, prefabPath: string, calls: seq<BindCall>)

  /** Field and type names a reader can delimit: a field name ends at '!' in its declaration and
      at ' ' in its statement, a type name at ';' and at '>'. */
  predicate Delimited(b: Binding) {
    '!' !in b.fieldName && ' ' !in b.fieldName && ';' !in b.typeName && '>' !in b.typeName
  }

  /** A statement a reader can delimit. */
  predicate CallDelimited(c: BindCall) {
    ' ' !in c.fieldName && '<' !in c.accessor && '>' !in c.typeName
  }

  function ParseFieldLine(s: string, eol: LineEnding): (r: Option<(Binding, string)>)
    ensures r.Some? ==> |r.value.1| < |s|
  {
    var s1 :- Expect(s, "\t");
    var p :- SplitBefore(s1, '!');
    var s2 :- Expect(p.1, "!: ");
    var q :- SplitBefore(s2, ';');
    var s3 :- Expect(q.1, ";" + eol.Text());
    Some((Binding(p.0, q.0), s3))
  }

  /** Field declarations, one per line, for as long as lines start with a tab. */
  function ParseFieldLines(s: string, eol: LineEnding): (r: Option<(seq<Binding>, string)>)
    decreases |s|
  {
    if !StartsWith(s, "\t") then Some(([], s))
    else
      match ParseFieldLine(s, eol)
      case None => None
      case Some(a) =>
        match ParseFieldLines(a.1, eol)
        case None => None
        case Some(more) => Some(([a.0] + more.0, more.1))
  }

  function ParseBindLine(s: string, eol: LineEnding): (r: Option<(BindCall, string)>)
    ensures r.Some? ==> |r.value.1| < |s|
  {
    var s1 :- Expect(s, "\t\tthis.");
    var f :- SplitBefore(s1, ' ');
    var s2 :- Expect(f.1, " = this.");
    var a :- SplitBefore(s2, '<');
    var s3 :- Expect(a.1, "<");
    var t :- SplitBefore(s3, '>');
    var s4 :- Expect(t.1, ">(");
    var n :- SplitBefore(s4, ')');
    var index :- ParseDecimal(n.0);
    var s5 :- Expect(n.1, ");" + eol.Text());
    Some((BindCall(f.0, a.0, t.0, index), s5))
  }

  /** Bind statements, one per line, for as long as lines start with two tabs. */
  function ParseBindLines(s: string, eol: LineEnding): (r: Option<(seq<BindCall>, string)>)
    decreases |s|
  {
    if !StartsWith(s, "\t\t") then Some(([], s))
    else
      match ParseBindLine(s, eol)
      case None => None
      case Some(a) =>
        match ParseBindLines(a.1, eol)
        case None => None
        case Some(more) => Some(([a.0] + more.0, more.1))
  }

  /** Reads a whole block body; anything but the exact layout is rejected. */
  function ParseTsBody(s: string, eol: LineEnding): Option<TsSection> {
    var s1 :- Expect(s, eol.Text());
    var fields :- ParseFieldLines(s1, eol);
    var s2 :- Expect(fields.1, TsPathHead(eol));
    var path :- SplitBefore(s2, '"');
    var s3 :- Expect(path.1, TsPathFoot(eol));
    var calls :- ParseBindLines(s3, eol);
    if calls.1 == TsTail(eol) then Some(TsSection(fields.0, path.0, calls.0)) else None
  }

  lemma FieldLineRoundTrip(b: Binding, eol: LineEnding, rest: string)
    requires Delimited(b)
    ensures ParseFieldLine(FieldLine(b, eol) + rest, eol) == Some((b, rest))
  {
    var e := eol.Text();
    var s3 := (";" + e) + rest;
    var s2 := b.typeName + s3;
    var s1 := b.fieldName + ("!: " + s2);
    assert FieldLine(b, eol) + rest == "\t" + s1;
    ExpectConcat("\t", s1);
    SplitBeforeAt(b.fieldName, "!: " + s2, '!');
    ExpectConcat("!: ", s2);
    SplitBeforeAt(b.typeName, s3, ';');
    ExpectConcat(";" + e, rest);
  }

  lemma FieldLineOpensWithTab(b: Binding, eol: LineEnding, tail: string)
    ensures StartsWith(FieldLine(b, eol) + tail, "\t")
  {
    assert (FieldLine(b, eol) + tail)[0] == '\t';
  }

  /** One more field line in front of what the rest reads as. */
  lemma ParseFieldLinesCons(s: string, eol: LineEnding, tail: string, bs: seq<Binding>, rest: string)
    requires StartsWith(s, "\t") && |bs| > 0
    requires ParseFieldLine(s, eol) == Some((bs[0], tail))
    requires ParseFieldLines(tail, eol) == Some((bs[1..], rest))
    ensures ParseFieldLines(s, eol) == Some((bs, rest))
  {
    assert [bs[0]] + bs[1..] == bs;
  }

  lemma {:induction false} FieldLinesRoundTrip(bs: seq<Binding>, eol: LineEnding, rest: string)
    requires forall k :: 0 <= k < |bs| ==> Delimited(bs[k])
    requires !StartsWith(rest, "\t")
    ensures ParseFieldLines(FieldLines(bs, eol) + rest, eol) == Some((bs, rest))
    decreases |bs|
  {
    if bs == [] {
      assert FieldLines(bs, eol) + rest == rest;
    } else {
      var line := FieldLine(bs[0], eol);
      var tail := FieldLines(bs[1..], eol) + rest;
      var s := FieldLines(bs, eol) + rest;
      ConcatAssoc(line, FieldLines(bs[1..], eol), rest);
      FieldLineOpensWithTab(bs[0], eol, tail);
      FieldLineRoundTrip(bs[0], eol, tail);
      FieldLinesRoundTrip(bs[1..], eol, rest);
      ParseFieldLinesCons(s, eol, tail, bs, rest);
    }
  }

  lemma CallLineOpensWithTabs(c: BindCall, eol: LineEnding, rest: string)
    ensures StartsWith(CallLine(c, eol) + rest, "\t\t")
  {
    var s := CallLine(c, eol) + rest;
    assert s[0] == '\t' && s[1] == '\t';
  }

  lemma CallLineRoundTrip(c: BindCall, eol: LineEnding, rest: string)
    requires CallDelimited(c)
    ensures ParseBindLine(CallLine(c, eol) + rest, eol) == Some((c, rest))
  {
    var e := eol.Text();
    var digits := DecimalString(c.index);
    var s5 := (");" + e) + rest;
    var s4 := digits + s5;
    var s3 := c.typeName + (">(" + s4);
    var s2 := c.accessor + ("<" + s3);
    var s1 := c.fieldName + (" = this." + s2);
    assert CallLine(c, eol) + rest == "\t\tthis." + s1;
    ExpectConcat("\t\tthis.", s1);
    SplitBeforeAt(c.fieldName, " = this." + s2, ' ');
    ExpectConcat(" = this.", s2);
    SplitBeforeAt(c.accessor, "<" + s3, '<');
    ExpectConcat("<", s3);
    SplitBeforeAt(c.typeName, ">(" + s4, '>');
    ExpectConcat(">(", s4);
    assert !IsDigit(')');
    SplitBeforeAt(digits, s5, ')');
    ParseDecimalString(c.index);
    ExpectConcat(");" + e, rest);
  }

  lemma ParseBindLinesCons(s: string, eol: LineEnding, tail: string, cs: seq<BindCall>, rest: string)
    requires StartsWith(s, "\t\t") && |cs| > 0
    requires ParseBindLine(s, eol) == Some((cs[0], tail))
    requires ParseBindLines(tail, eol) == Some((cs[1..], rest))
    ensures ParseBindLines(s, eol) == Some((cs, rest))
  {
    assert [cs[0]] + cs[1..] == cs;
  }

  /** Bind statements written one per line read back as the same statements. */
  lemma {:induction false} CallLinesRoundTrip(cs: seq<BindCall>, eol: LineEnding, rest: string)
    requires forall k :: 0 <= k < |cs| ==> CallDelimited(cs[k])
    requires !StartsWith(rest, "\t\t")
    ensures ParseBindLines(CallLines(cs, eol) + rest, eol) == Some((cs, rest))
    decreases |cs|
  {
    if cs == [] {
      assert CallLines(cs, eol) + rest == rest;
    } else {
      var line := CallLine(cs[0], eol);
      var tail := CallLines(cs[1..], eol) + rest;
      var s := CallLines(cs, eol) + rest;
      ConcatAssoc(line, CallLines(cs[1..], eol), rest);
      CallLineOpensWithTabs(cs[0], eol, tail);
      CallLineRoundTrip(cs[0], eol, tail);
      CallLinesRoundTrip(cs[1..], eol, rest);
      ParseBindLinesCons(s, eol, tail, cs, rest);
    }
  }

  /** The reading of a body, one stage at a time. */
  lemma ParseTsBodyStages(s: string, eol: LineEnding, s1: string, bs: seq<Binding>, r1: string, s2: string,
                          path: string, r2: string, s3: string, calls: seq<BindCall>)
    requires Expect(s, eol.Text()) == Some(s1)
    requires ParseFieldLines(s1, eol) == Some((bs, r1))
    requires Expect(r1, TsPathHead(eol)) == Some(s2)
    requires SplitBefore(s2, '"') == Some((path, r2))
    requires Expect(r2, TsPathFoot(eol)) == Some(s3)
    requires ParseBindLines(s3, eol) == Some((calls, TsTail(eol)))
    ensures ParseTsBody(s, eol) == Some(TsSection(bs, path, calls))
  {
  }

  lemma FieldsStage(bs: seq<Binding>, prefabPath: string, eol: LineEnding)
    requires forall k :: 0 <= k < |bs| ==> Delimited(bs[k])
    ensures var r1 := TsMiddle(prefabPath, eol) + (CallLines(TsCalls(bs), eol) + TsTail(eol));
      && Expect(TsBody(bs, prefabPath, eol), eol.Text()) == Some(FieldLines(bs, eol) + r1)
      && ParseFieldLines(FieldLines(bs, eol) + r1, eol) == Some((bs, r1))
  {
    var e := eol.Text();
    var r1 := TsMiddle(prefabPath, eol) + (CallLines(TsCalls(bs), eol) + TsTail(eol));
    ExpectConcat(e, FieldLines(bs, eol) + r1);
    assert r1[0] == e[0];
    FieldLinesRoundTrip(bs, eol, r1);
  }

  lemma PathStage(x: string, prefabPath: string, eol: LineEnding)
    requires '"' !in prefabPath
    ensures var foot := TsPathFoot(eol);
      && Expect(TsMiddle(prefabPath, eol) + x, TsPathHead(eol)) == Some(prefabPath + (foot + x))
      && SplitBefore(prefabPath + (foot + x), '"') == Some((prefabPath, foot + x))
      && Expect(foot + x, foot) == Some(x)
  {
    var head, foot := TsPathHead(eol), TsPathFoot(eol);
    ConcatAssoc(head, prefabPath + foot, x);
    ConcatAssoc(prefabPath, foot, x);
    ExpectConcat(head, prefabPath + (foot + x));
    assert (foot + x)[0] == '"';
    SplitBeforeAt(prefabPath, foot + x, '"');
    ExpectConcat(foot, x);
  }

  /** The closing text is not a bind line. */
  lemma TailIsNoCall(eol: LineEnding)
    ensures !StartsWith(TsTail(eol), "\t\t")
  {
    assert TsTail(eol)[1] == '}';
  }

  lemma TsCallsStage(bs: seq<Binding>, eol: LineEnding)
    requires forall k :: 0 <= k < |bs| ==> Delimited(bs[k])
    ensures ParseBindLines(CallLines(TsCalls(bs), eol) + TsTail(eol), eol) == Some((TsCalls(bs), TsTail(eol)))
  {
    TailIsNoCall(eol);
    CallLinesRoundTrip(TsCalls(bs), eol, TsTail(eol));
  }

  /** Reading a generated body gives back exactly the bindings, the path, and one bind
      statement per field with ascending indices from 0. */
  lemma TsBodyRoundTrip(bs: seq<Binding>, prefabPath: string, eol: LineEnding)
    requires forall k :: 0 <= k < |bs| ==> Delimited(bs[k])
    requires '"' !in prefabPath
    ensures ParseTsBody(TsBody(bs, prefabPath, eol), eol) == Some(TsSection(bs, prefabPath, TsCalls(bs)))
  {
    var x := CallLines(TsCalls(bs), eol) + TsTail(eol);
    var r1 := TsMiddle(prefabPath, eol) + x;
    var s1 := FieldLines(bs, eol) + r1;
    var s2 := prefabPath + (TsPathFoot(eol) + x);
    FieldsStage(bs, prefabPath, eol);
    PathStage(x, prefabPath, eol);
    TsCallsStage(bs, eol);
    ParseTsBodyStages(TsBody(bs, prefabPath, eol), eol, s1, bs, r1, s2, prefabPath, TsPathFoot(eol) + x, x, TsCalls(bs));
  }

  /** Names the reader can delimit in every line GenerateTsCode writes for `ctx`. */
  predicate Printable(ctx: UIContext) {
    && '"' !in ctx.prefabPath
    && forall k :: 0 <= k < |ctx.nodes| ==>
      && '!' !in ctx.nodes[k].fieldName && ' ' !in ctx.nodes[k].fieldName
      && (ctx.nodes[k].component.Some? ==>
          ';' !in ctx.nodes[k].component.value.fullTypeName && '>' !in ctx.nodes[k].component.value.fullTypeName)
  }

  /** A resolved type name is a declared class name (a word) or the `CS.` fallback, so a
      character outside words and outside `CS.` is in it only if it is in the full type name. */
  lemma TypeNameAvoids(c: Component, files: map<string, string>, ch: char)
    requires ch !in c.fullTypeName && ch !in "CS." && !ClassMatch.InClass(ch, ClassMatch.Word)
    ensures ch !in TypeName(c, files)
  {
    var script := BindScript(c, files);
    if script.Some? && ClassMatch.FirstClassName(script.value).Some? {
      ClassMatch.ClassNameIsWord(script.value);
    }
  }

  /** The block GenerateCode produces is found whole by the marker search, and its interior
      reads back as one field declaration per node in node order, the prefab path, and one
      bind statement per node with indices 0, 1, ... and the same type as its declaration. */
  lemma GeneratedCodeReadsBack(ctx: UIContext, files: map<string, string>, eol: LineEnding)
    requires GenerateCode(ctx, files, eol).Success?
    requires Printable(ctx)
    ensures var code := GenerateCode(ctx, files, eol).value;
      var bs := Resolve(ctx.nodes, files).value;
      && FindRegion(code, ctx.bindHash) == Some(Region(0, |code|))
      && ParseTsBody(code[|OpenTag(ctx.bindHash)|..|code| - |CloseTag|], eol) == Some(TsSection(bs, ctx.prefabPath, TsCalls(bs)))
      && |bs| == |ctx.nodes|
      && forall k :: 0 <= k < |bs| ==> bs[k] == Binding(ctx.nodes[k].fieldName, TypeName(ctx.nodes[k].component.value, files))
  {
    var bs := Resolve(ctx.nodes, files).value;
    assert GenerateCode(ctx, files, eol).value == BindHashTag(ctx.bindHash, TsBody(bs, ctx.prefabPath, eol));
    assert forall k :: 0 <= k < |bs| ==> Delimited(bs[k]) by {
      ResolvedDelimited(ctx, files);
    }
    TsBlockReadsBack(bs, ctx.prefabPath, ctx.bindHash, eol);
    ResolvedNodes(ctx.nodes, files);
  }

  /** A successful resolution has one binding per node, in node order. */
  lemma ResolvedNodes(nodes: seq<UIComponentNode>, files: map<string, string>)
    requires Resolve(nodes, files).Success?
    ensures var bs := Resolve(nodes, files).value;
      && |bs| == |nodes|
      && forall k :: 0 <= k < |bs| ==> bs[k] == Binding(nodes[k].fieldName, TypeName(nodes[k].component.value, files))
  {
    var bs := Resolve(nodes, files).value;
    forall k | 0 <= k < |bs|
      ensures bs[k] == Binding(nodes[k].fieldName, TypeName(nodes[k].component.value, files))
    {
      assert nodes[0 + k] == nodes[k];
    }
  }

  lemma ResolvedDelimited(ctx: UIContext, files: map<string, string>)
    requires Resolve(ctx.nodes, files).Success? && Printable(ctx)
    ensures var bs := Resolve(ctx.nodes, files).value;
      forall k :: 0 <= k < |bs| ==> Delimited(bs[k])
  {
    var bs := Resolve(ctx.nodes, files).value;
    forall k | 0 <= k < |bs| ensures Delimited(bs[k]) {
      var c := ctx.nodes[k].component.value;
      assert bs[k] == Binding(ctx.nodes[k].fieldName, TypeName(c, files));
      TypeNameAvoids(c, files, ';');
      TypeNameAvoids(c, files, '>');
    }
  }

  lemma TsBlockReadsBack(bs: seq<Binding>, prefabPath: string, hash: string, eol: LineEnding)
    requires forall k :: 0 <= k < |bs| ==> Delimited(bs[k])
    requires '"' !in prefabPath
    ensures var code := BindHashTag(hash, TsBody(bs, prefabPath, eol));
      && FindRegion(code, hash) == Some(Region(0, |code|))
      && ParseTsBody(code[|OpenTag(hash)|..|code| - |CloseTag|], eol) == Some(TsSection(bs, prefabPath, TsCalls(bs)))
  {
    TsBodyRoundTrip(bs, prefabPath, eol);
    TagIsRegion(hash, TsBody(bs, prefabPath, eol));
  }
}
