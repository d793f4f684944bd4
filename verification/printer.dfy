/** UIContextPrinter: the binding block the editor writes into a script (Editor/UIContextPrinter.cs). */
module Printer {
  import opened Wrappers
  import opened Strings
  import opened Paths
  import opened Decimal
  import opened Errors
  import opened Contexts
  import opened EditorConfig
  import opened ClassMatch
  import Regions

  /** Environment.NewLine, which every AppendLine adds. */
  datatype LineEnding = LF | CRLF {
    function Text(): string {
      if LF? then "\n" else "\r\n"
    }
  }

  /** One field of the generated class: its name and the type written for it. */
  datatype Binding = Binding(fieldName: string, typeName: string)

  /** The script text a UIContext component's bind file holds, when that file exists. */
  function BindScript(c: Component, files: map<string, string>): Option<string> {
    if c.contextBindFile.Some? && c.contextBindFile.value in files then Some(files[c.contextBindFile.value])
    else None
  }

  /** GetComponentTypeName: the class a nested UIContext's script declares, else `CS.` and the
      component's full type name. */
  function TypeName(c: Component, files: map<string, string>): (r: string)
    ensures |r| > 0
  {
    var declared := match BindScript(c, files)
      case None => ""
      case Some(text) => match FirstClassName(text)
        case None => ""
        case Some(n) => n;
    if |declared| == 0 then "CS." + c.fullTypeName else declared
  }

  /** The resolution chain stated against the declarative reading of the class pattern: plain
      components and contexts without a readable script or without a declaration fall back to
      `CS.`; otherwise the name is the word of the first declaration in the script. */
  lemma TypeNameResolution(c: Component, files: map<string, string>)
    ensures BindScript(c, files).None? ==> TypeName(c, files) == "CS." + c.fullTypeName
    ensures !c.IsUIContext() ==> TypeName(c, files) == "CS." + c.fullTypeName
    ensures BindScript(c, files).Some? && (forall i: nat :: i <= |BindScript(c, files).value| ==> !HasDeclAt(BindScript(c, files).value, i))
      ==> TypeName(c, files) == "CS." + c.fullTypeName
    ensures forall i: nat, b: nat, k: nat, d: nat, f: nat ::
      BindScript(c, files).Some? && ClassDeclAt(BindScript(c, files).value, i, b, k, d, f)
      && (forall j: nat :: j < i ==> !HasDeclAt(BindScript(c, files).value, j))
      ==> TypeName(c, files) == BindScript(c, files).value[b..k]
  {
    if BindScript(c, files).Some? {
      var text := BindScript(c, files).value;
      FirstClassNameSpec(text);
      if FirstClassName(text).Some? {
        ClassNameIsWord(text);
      }
    }
  }

  /** The node list resolved from index `from` on; the first node without a component stops
      generation with a null-reference failure. */
  function ResolveFrom(nodes: seq<UIComponentNode>, files: map<string, string>, from: nat): (r: Result<seq<Binding>, Error>)
    requires from <= |nodes|
    ensures r.Success? <==> forall k :: from <= k < |nodes| ==> nodes[k].component.Some?
    ensures r.Success? ==> |r.value| == |nodes| - from && forall j :: 0 <= j < |r.value| ==>
      r.value[j] == Binding(nodes[from + j].fieldName, TypeName(nodes[from + j].component.value, files))
    ensures r.Failure? ==> (
      && r.error.MissingComponent? && from <= r.error.index < |nodes|
      && nodes[r.error.index].component.None?
      && forall k :: from <= k < r.error.index ==> nodes[k].component.Some?)
    decreases |nodes| - from
  {
    if from == |nodes| then Success([])
    else match nodes[from].component
      case None => Failure(MissingComponent(from))
      case Some(c) =>
        match ResolveFrom(nodes, files, from + 1)
        case Failure(e) => Failure(e)
        case Success(rest) =>
          var bs := [Binding(nodes[from].fieldName, TypeName(c, files))] + rest;
          assert forall j :: 0 < j < |bs| ==> bs[j] == rest[j - 1];
          Success(bs)
  }

  function Resolve(nodes: seq<UIComponentNode>, files: map<string, string>): Result<seq<Binding>, Error> {
    ResolveFrom(nodes, files, 0)
  }

  /** `\t{fieldName}!: {type};` */
  function FieldLine(b: Binding, eol: LineEnding): string {
    "\t" + (b.fieldName + ("!: " + (b.typeName + (";" + eol.Text()))))
  }

  function FieldLines(bs: seq<Binding>, eol: LineEnding): string {
    if bs == [] then "" else FieldLine(bs[0], eol) + FieldLines(bs[1..], eol)
  }

  /** A statement `this.{fieldName} = this.{accessor}<{typeName}>({index});` of a bind method. */
  datatype BindCall = BindCall(fieldName: string, accessor: string, typeName: string, index: nat)

  /** The statements of GenerateTsCode's bind method: the i-th binds the i-th field, with the
      type its declaration has, through GetComponent at index i. */
  function TsCalls(bs: seq<Binding>): seq<BindCall> {
    seq(|bs|, k requires 0 <= k < |bs| => BindCall(bs[k].fieldName, FuncGetComponent, bs[k].typeName, k))
  }

  /** `\t\tthis.{fieldName} = this.{accessor}<{type}>({index});` */
  function CallLine(c: BindCall, eol: LineEnding): string {
    "\t\tthis." + (c.fieldName + (" = this." + (c.accessor + ("<" + (c.typeName + (">(" + (DecimalString(c.index) + (");" + eol.Text()))))))))
  }

  function CallLines(cs: seq<BindCall>, eol: LineEnding): string {
    if cs == [] then "" else CallLine(cs[0], eol) + CallLines(cs[1..], eol)
  }

  /** The path accessor and the opening of the bind method, between the field lines and the
      bind lines. */
  function TsMiddle(prefabPath: string, eol: LineEnding): string {
    TsPathHead(eol) + (prefabPath + TsPathFoot(eol))
  }

  /** The blank line after the fields, the accessor's header and the text before the path. */
  function TsPathHead(eol: LineEnding): string {
    var e := eol.Text();
    e + "\tpublic " + FuncGetPath + "(): string {" + e + "\t\treturn \""
  }

  /** The rest of the accessor, a blank line and the header of the bind method. */
  function TsPathFoot(eol: LineEnding): string {
    var e := eol.Text();
    "\";" + e + "\t}" + e + e + "\tprotected " + FuncBindComponents + "(): void {" + e
  }

  /** What follows the bind lines: the closing brace and the tab appended last. */
  function TsTail(eol: LineEnding): string {
    "\t}" + eol.Text() + "\t"
  }

  /** The StringBuilder contents of GenerateTsCode. */
  function TsBody(bs: seq<Binding>, prefabPath: string, eol: LineEnding): string {
    eol.Text() + (FieldLines(bs, eol) + (TsMiddle(prefabPath, eol) + (CallLines(TsCalls(bs), eol) + TsTail(eol))))
  }

  /** GenerateTsCode: the framed block for the context's bindings. */
  function GenerateTsCode(ctx: UIContext, files: map<string, string>, eol: LineEnding): (r: Result<string, Error>)
    ensures r.Success? <==> Resolve(ctx.nodes, files).Success?
    ensures r.Success? ==> r.value == BindHashTag(ctx.bindHash, TsBody(Resolve(ctx.nodes, files).value, ctx.prefabPath, eol))
    ensures r.Success? ==> StartsWith(r.value, OpenTag(ctx.bindHash)) && EndsWith(r.value, CloseTag)
  {
    match Resolve(ctx.nodes, files)
    case Failure(e) => Failure(e)
    case Success(bs) =>
      Regions.FramedBlockMarkers(ctx.bindHash, TsBody(bs, ctx.prefabPath, eol));
      Success(BindHashTag(ctx.bindHash, TsBody(bs, ctx.prefabPath, eol)))
  }

  const TsExtension: string := ".ts"

  /** GenerateCode: only a bind file with the ".ts" extension is supported. */
  function GenerateCode(ctx: UIContext, files: map<string, string>, eol: LineEnding): (r: Result<string, Error>)
    ensures Extension(ctx.bindFile) != TsExtension ==> r == Failure(UnsupportedBindFile(Extension(ctx.bindFile)))
    ensures Extension(ctx.bindFile) == TsExtension ==> r == GenerateTsCode(ctx, files, eol)
    ensures r.Success? ==> StartsWith(r.value, OpenTag(ctx.bindHash)) && EndsWith(r.value, CloseTag)
  {
    var ext := Extension(ctx.bindFile);
    if ext == TsExtension then GenerateTsCode(ctx, files, eol)
    else Failure(UnsupportedBindFile(ext))
  }

  /** Two generations agree whenever every component's bind script reads the same: the text
      depends on the file system only through the scripts of nested contexts. */
  lemma {:induction false} ResolveDependsOnBindScripts(nodes: seq<UIComponentNode>, files1: map<string, string>, files2: map<string, string>, from: nat)
    requires from <= |nodes|
    requires forall k :: from <= k < |nodes| && nodes[k].component.Some? ==>
      BindScript(nodes[k].component.value, files1) == BindScript(nodes[k].component.value, files2)
    ensures ResolveFrom(nodes, files1, from) == ResolveFrom(nodes, files2, from)
    decreases |nodes| - from
  {
    if from < |nodes| {
      ResolveDependsOnBindScripts(nodes, files1, files2, from + 1);
    }
  }

  lemma GenerateDependsOnBindScripts(ctx: UIContext, files1: map<string, string>, files2: map<string, string>, eol: LineEnding)
    requires forall k :: 0 <= k < |ctx.nodes| && ctx.nodes[k].component.Some? ==>
      BindScript(ctx.nodes[k].component.value, files1) == BindScript(ctx.nodes[k].component.value, files2)
    ensures GenerateCode(ctx, files1, eol) == GenerateCode(ctx, files2, eol)
  {
    ResolveDependsOnBindScripts(ctx.nodes, files1, files2, 0);
  }

  /** `typeName.Split(".").Last()`: the text after the last dot, or all of it when there is none. */
  function LastSegment(s: string): (r: string)
    ensures '.' !in r
    ensures |r| <= |s| && s[|s| - |r|..] == r
    ensures |r| < |s| ==> s[|s| - |r| - 1] == '.'
    decreases |s|
  {
    if |s| == 0 || s[|s| - 1] == '.' then ""
    else
      var init := s[..|s| - 1];
      var p := LastSegment(init);
      assert s[|s| - |p| - 1..] == init[|init| - |p|..] + [s[|s| - 1]];
      assert |p| < |init| ==> s[|s| - |p| - 2] == init[|init| - |p| - 1];
      p + [s[|s| - 1]]
  }

  /** The accessor GenerateCsCode calls: nested contexts are bound as child controls. */
  function CsAccessor(c: Component): (r: string)
    ensures r == FuncGetSubControl <==> c.IsUIContext()
  {
    if c.IsUIContext() then FuncGetSubControl else FuncGetComponent
  }

  /** The declarations of GenerateCsCode: each type cut to its last segment. */
  function CsFields(bs: seq<Binding>): seq<Binding> {
    seq(|bs|, k requires 0 <= k < |bs| => Binding(bs[k].fieldName, LastSegment(bs[k].typeName)))
  }

  /** `\t{type} {fieldName};` */
  function CsDeclLine(b: Binding, eol: LineEnding): string {
    "\t" + (b.typeName + (" " + (b.fieldName + (";" + eol.Text()))))
  }

  function CsDeclLines(fs: seq<Binding>, eol: LineEnding): string {
    if fs == [] then "" else CsDeclLine(fs[0], eol) + CsDeclLines(fs[1..], eol)
  }

  /** The statements of GenerateCsCode's bind method: the i-th binds the i-th field at index i
      through the node's accessor, with the last segment of its type. */
  function CsCalls(nodes: seq<UIComponentNode>, bs: seq<Binding>): seq<BindCall>
    requires |bs| == |nodes| && forall k :: 0 <= k < |nodes| ==> nodes[k].component.Some?
  {
    seq(|nodes|, k requires 0 <= k < |nodes| =>
      BindCall(bs[k].fieldName, CsAccessor(nodes[k].component.value), LastSegment(bs[k].typeName), k))
  }

  function CsMiddle(prefabPath: string, eol: LineEnding): string {
    CsPathHead(eol) + (prefabPath + CsPathFoot(eol))
  }

  /** The accessor's header, its opening brace and the text before the path. */
  function CsPathHead(eol: LineEnding): string {
    var e := eol.Text();
    "\tpublic override string " + FuncGetPath + "()" + e + "\t{" + e + "\t\treturn \""
  }

  /** The rest of the accessor and the header of the bind method, with no blank lines. */
  function CsPathFoot(eol: LineEnding): string {
    var e := eol.Text();
    "\";" + e + "\t}" + e + "\tprotected override void " + FuncBindComponents + "()" + e + "\t{" + e
  }

  /** The StringBuilder contents of GenerateCsCode for nodes resolved as `bs`. */
  function CsBody(nodes: seq<UIComponentNode>, bs: seq<Binding>, prefabPath: string, eol: LineEnding): string
    requires |bs| == |nodes| && forall k :: 0 <= k < |nodes| ==> nodes[k].component.Some?
  {
    eol.Text() + (CsDeclLines(CsFields(bs), eol) + (CsMiddle(prefabPath, eol) + (CallLines(CsCalls(nodes, bs), eol) + TsTail(eol))))
  }

  /** GenerateCsCode, which GenerateCode never calls: no blank lines, last type segments, and
      child-control binding for nested contexts. */
  function GenerateCsCode(ctx: UIContext, files: map<string, string>, eol: LineEnding): (r: Result<string, Error>)
    ensures r.Success? <==> Resolve(ctx.nodes, files).Success?
    ensures r.Success? ==> r.value == BindHashTag(ctx.bindHash, CsBody(ctx.nodes, Resolve(ctx.nodes, files).value, ctx.prefabPath, eol))
  {
    match Resolve(ctx.nodes, files)
    case Failure(e) => Failure(e)
    case Success(bs) => Success(BindHashTag(ctx.bindHash, CsBody(ctx.nodes, bs, ctx.prefabPath, eol)))
  }
}
