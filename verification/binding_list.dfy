/** The editor's edits of the two binding lists (Editor/UIContextEditor.cs, lines 104-240):
    dropping game objects, choosing a component, renaming a field and deleting a row. */
module BindingList {
  import opened Wrappers
  import opened Contexts
  import opened Printer

  /** The row a dropped game object becomes: its name, itself and its Transform. */
  function NodeFor(go: GameObject): (n: UIComponentNode)
    ensures n.fieldName == go.name && n.gameObject == go && n.component == Some(go.transform)
  {
    UIComponentNode(go.name, go, Some(go.transform))
  }

  /** One dropped object: a row appended to `nodes` and its Transform inserted into
      `components` at the same index, `|nodes|`. */
  function AppendNode(ctx: UIContext, go: GameObject): (r: UIContext)
    requires |ctx.nodes| <= |ctx.components|
    ensures r.prefabPath == ctx.prefabPath && r.bindHash == ctx.bindHash && r.bindFile == ctx.bindFile
    ensures |r.nodes| == |ctx.nodes| + 1 && r.nodes[..|ctx.nodes|] == ctx.nodes && r.nodes[|ctx.nodes|] == NodeFor(go)
    ensures |r.components| == |ctx.components| + 1
    ensures r.components[..|ctx.nodes|] == ctx.components[..|ctx.nodes|]
    ensures r.components[|ctx.nodes|] == Some(go.transform)
    ensures r.components[|ctx.nodes| + 1..] == ctx.components[|ctx.nodes|..]
    ensures Parallel(ctx) ==> Parallel(r)
  {
    var n := |ctx.nodes|;
    var r := ctx.(nodes := ctx.nodes + [NodeFor(go)],
                  components := ctx.components[..n] + [Some(go.transform)] + ctx.components[n..]);
    assert r.components[n + 1..] == ctx.components[n..];
    r
  }

  /** The number of leading entries of a drop that are game objects. */
  function LeadingCount(objects: seq<Option<GameObject>>): (n: nat)
    ensures n <= |objects|
    ensures forall i :: 0 <= i < n ==> objects[i].Some?
    ensures n == |objects| || objects[n].None?
  {
    if objects == [] || objects[0].None? then 0 else 1 + LeadingCount(objects[1..])
  }

  /** The reference reading of a drop: objects are appended one at a time until the first
      entry that is not a game object, where the handler returns. */
  function Dropped(ctx: UIContext, objects: seq<Option<GameObject>>): UIContext
    requires |ctx.nodes| <= |ctx.components|
    decreases |objects|
  {
    if objects == [] || objects[0].None? then ctx
    else Dropped(AppendNode(ctx, objects[0].value), objects[1..])
  }

  /** The rows after a drop: the existing rows, then one per leading game object, in order. */
  lemma {:induction false} DroppedNodes(ctx: UIContext, objects: seq<Option<GameObject>>)
    requires |ctx.nodes| <= |ctx.components|
    ensures var r := Dropped(ctx, objects);
      var n := LeadingCount(objects);
      && r.prefabPath == ctx.prefabPath && r.bindHash == ctx.bindHash && r.bindFile == ctx.bindFile
      && |r.nodes| == |ctx.nodes| + n && r.nodes[..|ctx.nodes|] == ctx.nodes
      && forall i :: 0 <= i < n ==> r.nodes[|ctx.nodes| + i] == NodeFor(objects[i].value)
    decreases |objects|
  {
    if !(objects == [] || objects[0].None?) {
      var c1 := AppendNode(ctx, objects[0].value);
      DroppedNodes(c1, objects[1..]);
      var r := Dropped(ctx, objects);
      var n0 := |ctx.nodes|;
      assert r.nodes[..n0 + 1] == c1.nodes;
      assert r.nodes[..n0] == c1.nodes[..n0];
      forall i | 1 <= i < LeadingCount(objects) ensures r.nodes[n0 + i] == NodeFor(objects[i].value) {
        assert objects[1..][i - 1] == objects[i];
        assert r.nodes[n0 + 1 + (i - 1)] == NodeFor(objects[1..][i - 1].value);
      }
    }
  }

  /** The components after a drop: those before index `|nodes|`, then one Transform per
      leading game object, then those that were beyond the rows, pushed back. */
  lemma {:induction false} DroppedComponents(ctx: UIContext, objects: seq<Option<GameObject>>)
    requires |ctx.nodes| <= |ctx.components|
    ensures var r := Dropped(ctx, objects);
      var n := LeadingCount(objects);
      var n0 := |ctx.nodes|;
      && |r.components| == |ctx.components| + n
      && r.components[..n0] == ctx.components[..n0]
      && r.components[n0 + n..] == ctx.components[n0..]
    decreases |objects|
  {
    if !(objects == [] || objects[0].None?) {
      var c1 := AppendNode(ctx, objects[0].value);
      DroppedComponents(c1, objects[1..]);
      var r := Dropped(ctx, objects);
      assert r == Dropped(c1, objects[1..]);
      var n1 := LeadingCount(objects[1..]);
      assert LeadingCount(objects) == n1 + 1;
      InsertStep(ctx.components, c1.components, r.components, |ctx.nodes|, n1);
    }
  }

  /** The Transforms a drop inserts: one per leading game object, in drop order, from index
      `|nodes|` on. */
  lemma {:induction false} DroppedTransforms(ctx: UIContext, objects: seq<Option<GameObject>>)
    requires |ctx.nodes| <= |ctx.components|
    ensures var r := Dropped(ctx, objects);
      var n0 := |ctx.nodes|;
      && n0 + LeadingCount(objects) <= |r.components|
      && forall i :: 0 <= i < LeadingCount(objects) ==> r.components[n0 + i] == Some(objects[i].value.transform)
    decreases |objects|
  {
    DroppedComponents(ctx, objects);
    if !(objects == [] || objects[0].None?) {
      var c1 := AppendNode(ctx, objects[0].value);
      var rest := objects[1..];
      DroppedTransforms(c1, rest);
      DroppedComponents(c1, rest);
      var r := Dropped(c1, rest);
      var n0 := |ctx.nodes|;
      assert Dropped(ctx, objects) == r;
      assert r.components[n0] == Some(objects[0].value.transform) by {
        assert r.components[n0] == r.components[..n0 + 1][n0];
      }
      TransformsStep(r.components, objects, n0);
    }
  }

  lemma TransformsStep(cs: seq<Option<Component>>, objects: seq<Option<GameObject>>, n0: nat)
    requires objects != [] && objects[0].Some? && n0 + LeadingCount(objects) <= |cs|
    requires cs[n0] == Some(objects[0].value.transform)
    requires forall i :: 0 <= i < LeadingCount(objects[1..]) ==> cs[n0 + 1 + i] == Some(objects[1..][i].value.transform)
    ensures forall i :: 0 <= i < LeadingCount(objects) ==> cs[n0 + i] == Some(objects[i].value.transform)
  {
    forall i | 1 <= i < LeadingCount(objects) ensures cs[n0 + i] == Some(objects[i].value.transform) {
      assert objects[1..][i - 1] == objects[i];
      assert cs[n0 + 1 + (i - 1)] == Some(objects[1..][i - 1].value.transform);
    }
  }

  /** One insertion at `n0` followed by `n1` more right after it, as slices. */
  lemma InsertStep<T>(cs: seq<T>, c1: seq<T>, r: seq<T>, n0: nat, n1: nat)
    requires n0 <= |cs| && |c1| == |cs| + 1 && c1[..n0] == cs[..n0] && c1[n0 + 1..] == cs[n0..]
    requires |r| == |c1| + n1 && r[..n0 + 1] == c1[..n0 + 1] && r[n0 + 1 + n1..] == c1[n0 + 1..]
    ensures |r| == |cs| + n1 + 1 && r[..n0] == cs[..n0] && r[n0] == c1[n0]
    ensures r[n0 + 1 + n1..] == cs[n0..]
  {
    assert r[..n0] == r[..n0 + 1][..n0];
    assert r[n0] == r[..n0 + 1][n0];
  }

  /** Dropping keeps the two lists parallel. */
  lemma {:induction false} DroppedParallel(ctx: UIContext, objects: seq<Option<GameObject>>)
    requires |ctx.nodes| <= |ctx.components| && Parallel(ctx)
    ensures Parallel(Dropped(ctx, objects))
    decreases |objects|
  {
    if !(objects == [] || objects[0].None?) {
      DroppedParallel(AppendNode(ctx, objects[0].value), objects[1..]);
    }
  }

  /** DrawAddComponentArea after a drop: the rows added, and the new lists. The existing rows
      and the components before index `|nodes|` stay; the new rows follow in drop order; the
      components that were beyond the rows are pushed back behind the new Transforms. */
  method DropObjects(ctx: UIContext, objects: seq<Option<GameObject>>) returns (r: UIContext, added: nat)
    requires |ctx.nodes| <= |ctx.components|
    ensures r == Dropped(ctx, objects)
    ensures added == LeadingCount(objects)
    ensures r.prefabPath == ctx.prefabPath && r.bindHash == ctx.bindHash && r.bindFile == ctx.bindFile
    ensures |r.nodes| == |ctx.nodes| + added && r.nodes[..|ctx.nodes|] == ctx.nodes
    ensures forall i :: 0 <= i < added ==> r.nodes[|ctx.nodes| + i] == NodeFor(objects[i].value)
    ensures |r.components| == |ctx.components| + added
    ensures r.components[..|ctx.nodes|] == ctx.components[..|ctx.nodes|]
    ensures forall i :: 0 <= i < added ==> r.components[|ctx.nodes| + i] == Some(objects[i].value.transform)
    ensures r.components[|ctx.nodes| + added..] == ctx.components[|ctx.nodes|..]
    ensures Parallel(ctx) ==> Parallel(r)
  {
    r, added := ctx, 0;
    while added < |objects| && objects[added].Some?
      invariant added <= |objects| && forall i :: 0 <= i < added ==> objects[i].Some?
      invariant |r.nodes| <= |r.components|
      invariant Dropped(r, objects[added..]) == Dropped(ctx, objects)
      decreases |objects| - added
    {
      assert objects[added..][1..] == objects[added + 1..];
      r := AppendNode(r, objects[added].value);
      added := added + 1;
    }
    LeadingCountIs(objects, added);
    DroppedNodes(ctx, objects);
    DroppedComponents(ctx, objects);
    DroppedTransforms(ctx, objects);
    if Parallel(ctx) {
      DroppedParallel(ctx, objects);
    }
  }

  lemma {:induction false} LeadingCountIs(objects: seq<Option<GameObject>>, n: nat)
    requires n <= |objects| && forall i :: 0 <= i < n ==> objects[i].Some?
    requires n == |objects| || objects[n].None?
    ensures LeadingCount(objects) == n
  {
    if n > 0 {
      assert objects[1..][n - 1..] == objects[n..];
      LeadingCountIs(objects[1..], n - 1);
    }
  }

  /** The delete button of row `k`: the row and the component at `k` are removed from both
      lists. */
  function DeleteNode(ctx: UIContext, k: nat): (r: UIContext)
    requires k < |ctx.nodes| && k < |ctx.components|
    ensures |r.nodes| == |ctx.nodes| - 1 && |r.components| == |ctx.components| - 1
    ensures forall i :: 0 <= i < k ==> r.nodes[i] == ctx.nodes[i] && r.components[i] == ctx.components[i]
    ensures forall i :: k <= i < |r.nodes| ==> r.nodes[i] == ctx.nodes[i + 1]
    ensures forall i :: k <= i < |r.components| ==> r.components[i] == ctx.components[i + 1]
    ensures Parallel(ctx) ==> Parallel(r)
  {
    ctx.(nodes := ctx.nodes[..k] + ctx.nodes[k + 1..],
         components := ctx.components[..k] + ctx.components[k + 1..])
  }

  /** Deleting the row just dropped restores the context. */
  lemma DeleteUndoesDrop(ctx: UIContext, go: GameObject)
    requires |ctx.nodes| <= |ctx.components|
    ensures DeleteNode(AppendNode(ctx, go), |ctx.nodes|) == ctx
  {
    var r := DeleteNode(AppendNode(ctx, go), |ctx.nodes|);
    assert r.nodes == ctx.nodes;
    assert r.components == ctx.components;
  }

  /** The popup's initial selection: the LAST position of the bound component among the game
      object's components, or 0 when it is not among them. */
  function CurrentIndex(comps: seq<Component>, current: Option<Component>): (r: nat)
    ensures (exists i :: 0 <= i < |comps| && Some(comps[i]) == current) ==>
      && r < |comps| && Some(comps[r]) == current
      && forall j :: r < j < |comps| ==> Some(comps[j]) != current
    ensures (forall i :: 0 <= i < |comps| ==> Some(comps[i]) != current) ==> r == 0
  {
    if comps == [] then 0
    else if Some(comps[|comps| - 1]) == current then |comps| - 1
    else
      var r := CurrentIndex(comps[..|comps| - 1], current);
      assert forall i :: 0 <= i < |comps| - 1 ==> comps[..|comps| - 1][i] == comps[i];
      r
  }

  /** DrawBindingComponent with `choice` picked in the popup over `comps`, the game object's
      components: a choice other than the initial selection rebinds row `k` in both lists. */
  function SelectComponent(ctx: UIContext, k: nat, comps: seq<Component>, choice: nat): (r: UIContext)
    requires k < |ctx.nodes| && k < |ctx.components| && choice < |comps|
    ensures choice == CurrentIndex(comps, ctx.nodes[k].component) ==> r == ctx
    ensures choice != CurrentIndex(comps, ctx.nodes[k].component) ==>
      && |r.nodes| == |ctx.nodes| && |r.components| == |ctx.components|
      && r.nodes[k].component == Some(comps[choice]) && r.components[k] == Some(comps[choice])
      && r.nodes[k].fieldName == ctx.nodes[k].fieldName && r.nodes[k].gameObject == ctx.nodes[k].gameObject
      && (forall i :: 0 <= i < |r.nodes| && i != k ==> r.nodes[i] == ctx.nodes[i])
      && (forall i :: 0 <= i < |r.components| && i != k ==> r.components[i] == ctx.components[i])
    ensures Parallel(ctx) ==> Parallel(r)
  {
    if choice == CurrentIndex(comps, ctx.nodes[k].component) then ctx
    else
      var c := Some(comps[choice]);
      ctx.(nodes := ctx.nodes[k := ctx.nodes[k].(component := c)],
           components := ctx.components[k := c])
  }

  /** A component bound from outside the game object's list cannot be replaced by the first
      entry of the popup: the initial selection is already 0, so picking it changes nothing. */
  lemma SelectFirstKeepsForeign(ctx: UIContext, k: nat, comps: seq<Component>)
    requires k < |ctx.nodes| && k < |ctx.components| && 0 < |comps|
    requires forall i :: 0 <= i < |comps| ==> Some(comps[i]) != ctx.nodes[k].component
    ensures SelectComponent(ctx, k, comps, 0) == ctx
    ensures ctx.nodes[k].component != Some(comps[0])
  {
  }

  /** DrawFieldName: the row's field name becomes the edited text; nothing else changes. */
  function RenameField(ctx: UIContext, k: nat, name: string): (r: UIContext)
    requires k < |ctx.nodes|
    ensures |r.nodes| == |ctx.nodes| && r.components == ctx.components
    ensures r.nodes[k].fieldName == name
    ensures r.nodes[k].gameObject == ctx.nodes[k].gameObject && r.nodes[k].component == ctx.nodes[k].component
    ensures forall i :: 0 <= i < |r.nodes| && i != k ==> r.nodes[i] == ctx.nodes[i]
    ensures Parallel(ctx) ==> Parallel(r)
  {
    if name == ctx.nodes[k].fieldName then ctx
    else ctx.(nodes := ctx.nodes[k := ctx.nodes[k].(fieldName := name)])
  }

  /** Renaming back restores the context. */
  lemma RenameBack(ctx: UIContext, k: nat, name: string)
    requires k < |ctx.nodes|
    ensures RenameField(RenameField(ctx, k, name), k, ctx.nodes[k].fieldName) == ctx
  {
    var r := RenameField(RenameField(ctx, k, name), k, ctx.nodes[k].fieldName);
    assert r.nodes == ctx.nodes;
  }

  /** With parallel lists, the `k`-th generated binding call reads the runtime component that
      is row `k`'s component, and asks for the type name resolved from that same component. */
  lemma BindIndexAgrees(ctx: UIContext, files: map<string, string>)
    requires Parallel(ctx) && Resolve(ctx.nodes, files).Success?
    ensures var bs := Resolve(ctx.nodes, files).value;
      var calls := TsCalls(bs);
      && |calls| == |ctx.components|
      && forall k :: 0 <= k < |calls| ==>
           && calls[k].index == k
           && ctx.components[k].Some?
           && calls[k].typeName == TypeName(ctx.components[k].value, files)
  {
  }
}
