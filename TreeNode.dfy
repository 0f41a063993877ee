/**
 * The result tree of a decode: an error, a leaf holding a decoded value, or
 * a branch holding its children by key and the value composed from them.
 * Validity is never stored: it is derived from the node's children and from
 * the violations attached to it.
 */
module TreeNode {
  import opened OrderedMap
  import opened Types

  /** Why a node is invalid. `Reported` stands for every error a child decoder raises. */
  datatype Reason = SourceMustBeIterable | UnexpectedKeys(keys: seq<Key>) | Reported(message: string)

  datatype Node =
    | Error(shell: Shell, reason: Reason)
    | Leaf(shell: Shell, value: Value)
    | Branch(shell: Shell, composite: Option<Value>, children: seq<(Key, Node)>, violations: seq<Reason>)

  /** `TreeNode::isValid()`: a branch is valid when no violation is attached and every child is valid. */
  predicate IsValid(n: Node)
  {
    match n
    case Error(_, _) => false
    case Leaf(_, _) => true
    case Branch(_, _, children, violations) =>
      violations == [] && forall i | 0 <= i < |children| :: IsValid(children[i].1)
  }

  /** Every child in `children` is valid. */
  predicate AllValid(children: seq<(Key, Node)>)
  {
    forall i | 0 <= i < |children| :: IsValid(children[i].1)
  }

  /** `TreeNode::name()`. */
  function Name(n: Node): Key
  {
    ShellName(n.shell)
  }

  /** `TreeNode::value()` of a valid node; a branch built without a value holds PHP's null. */
  function NodeValue(n: Node): Value
    requires IsValid(n)
  {
    match n
    case Leaf(_, v) => v
    case Branch(_, composite, _, _) => if composite.Some? then composite.value else Scalar(Null)
  }

  /** `TreeNode::children()`: the child nodes of a branch in order; none for a leaf or an error. */
  function ChildNodes(n: Node): seq<Node>
  {
    if n.Branch? then seq(|n.children|, i requires 0 <= i < |n.children| => n.children[i].1) else []
  }

  /** A sealed shaped array whose source holds a key that no element declares. */
  predicate HasUnexpectedKeys(shell: Shell)
  {
    && shell.declaredType.ShapedArray?
    && shell.declaredType.unsealedType.None?
    && IsIterable(shell.value)
    && exists i | 0 <= i < |shell.value.value.entries| ::
         shell.value.value.entries[i].0 !in DeclaredKeys(shell.declaredType.elements)
  }

  /** The source keys that no element declares, in source order. */
  function UndeclaredKeys(entries: seq<(Key, Value)>, declared: set<Key>): seq<Key>
  {
    if entries == [] then []
    else (if entries[0].0 in declared then [] else [entries[0].0]) + UndeclaredKeys(entries[1..], declared)
  }

  /**
   * `TreeNode::checkUnexpectedKeys()`: a branch built for a sealed shape from a
   * source with undeclared keys becomes invalid and keeps its shell, value and
   * children; every other node is returned as is. The body is a minimal
   * stand-in (one `UnexpectedKeys` violation); the lemmas about the builder
   * use only this contract.
   */
  function CheckUnexpectedKeys(n: Node): (r: Node)
    ensures r.Branch? == n.Branch? && r.shell == n.shell
    ensures n.Branch? ==> r.children == n.children && r.composite == n.composite
    ensures n.Branch? && HasUnexpectedKeys(n.shell) ==> !IsValid(r)
    ensures !(n.Branch? && HasUnexpectedKeys(n.shell)) ==> r == n
  {
    if n.Branch? && HasUnexpectedKeys(n.shell) then
      var keys := UndeclaredKeys(n.shell.value.value.entries, DeclaredKeys(n.shell.declaredType.elements));
      n.(violations := n.violations + [UnexpectedKeys(keys)])
    else n
  }
}
