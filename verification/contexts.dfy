/** The serialised records of Runtime/UIContext.cs. Unity object references become values. */
module Contexts {
  import opened Wrappers

  /** A component attached to a game object. `contextBindFile` is `Some(f)` exactly when the
      component is itself a UIContext, whose `bindFile` is `f`. */
  datatype Component = Component(fullTypeName: string, contextBindFile: Option<string>) {
    predicate IsUIContext() {
      contextBindFile.Some?
    }
  }

  /** A scene object, with the Transform every game object carries. */
  datatype GameObject = GameObject(name: string, transform: Component)

  /** UIComponentNode: one binding row; `component` is `None` for a null reference. */
  datatype UIComponentNode = UIComponentNode(fieldName: string, gameObject: GameObject, component: Option<Component>)

  /** UIContext: `nodes` is `lstComponentsInEditor`, `components` is `lstComponents`, the
      runtime list the generated code indexes into. */
  datatype UIContext = UIContext(
    prefabPath: string,
    bindHash: string,
    bindFile: string,
    nodes: seq<UIComponentNode>,
    components: seq<Option<Component>>)

  /** The two lists stay parallel: the i-th runtime component is the i-th node's component. */
  ghost predicate Parallel(ctx: UIContext) {
    && |ctx.nodes| == |ctx.components|
    && forall i :: 0 <= i < |ctx.nodes| ==> ctx.components[i] == ctx.nodes[i].component
  }
}
