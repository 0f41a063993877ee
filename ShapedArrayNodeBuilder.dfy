/**
 * The node builder for shaped arrays (`array{id: int, name?: string, ...}`).
 *
 * `build` checks that the source is iterable, decodes every declared element
 * through the recursive dispatcher, hands the leftover keys of an unsealed
 * shape to the dispatcher under the shape's catch-all type, assembles the
 * composite value and finally checks a sealed shape for unexpected keys.
 *
 * The dispatcher (`RootNodeBuilder::build`) is a parameter: an arbitrary
 * function from decode contexts to nodes.
 */
module ShapedArrayNodeBuilder {
  import opened OrderedMap
  import opened Types
  import opened TreeNode

  /** The recursive dispatcher, left uninterpreted. */
  type Dispatcher = Shell -> Node

  // ---------------------------------------------------------------------------
  // The declared-element pass, stated over the source as the caller gave it
  // ---------------------------------------------------------------------------

  /** The element pass decodes `e` when its key is in the source or it is required. */
  predicate Wants(e: Element, input: seq<(Key, Value)>)
  {
    HasKey(input, e.key) || !e.optional
  }

  /** The elements the element pass decodes, in declaration order. */
  function Wanted(elements: seq<Element>, input: seq<(Key, Value)>): (w: seq<Element>)
    ensures forall e :: e in w <==> e in elements && Wants(e, input)
    decreases |elements|
  {
    if elements == [] then []
    else
      var init, last := elements[..|elements| - 1], elements[|elements| - 1];
      assert elements == init + [last];
      Wanted(init, input) + (if Wants(last, input) then [last] else [])
  }

  /** The context element `e` is decoded in: its own type, one key deeper, with the source value if there is one. */
  function ElementShell(shell: Shell, e: Element, input: seq<(Key, Value)>): Shell
  {
    var child := Child(shell, e.key, e.valueType);
    if HasKey(input, e.key) then WithValue(child, Get(input, e.key)) else child
  }

  /** The contexts the element pass hands to the dispatcher, in order. */
  function DeclaredCalls(shell: Shell, elements: seq<Element>, input: seq<(Key, Value)>): seq<Shell>
  {
    var w := Wanted(elements, input);
    seq(|w|, i requires 0 <= i < |w| => ElementShell(shell, w[i], input))
  }

  /** The children the element pass produces: each decoded element under its own key. */
  function DeclaredChildren(decode: Dispatcher, shell: Shell, elements: seq<Element>, input: seq<(Key, Value)>)
    : seq<(Key, Node)>
  {
    var w := Wanted(elements, input);
    var calls := DeclaredCalls(shell, elements, input);
    seq(|w|, i requires 0 <= i < |w| => (w[i].key, decode(calls[i])))
  }

  /** What is left of the source once every declared key is removed. */
  function Leftover(input: seq<(Key, Value)>, elements: seq<Element>): seq<(Key, Value)>
  {
    RemoveKeys(input, DeclaredKeys(elements))
  }

  /** The context the leftover keys of an unsealed shape are decoded in. */
  function UnsealedShell(shell: Shell, unsealedType: Type, leftover: seq<(Key, Value)>): Shell
  {
    WithValue(WithType(shell, unsealedType), Array(leftover))
  }

  /** `$children[$node->name()] = $node` for each node in turn. */
  function Splice(children: seq<(Key, Node)>, nodes: seq<Node>): seq<(Key, Node)>
    decreases |nodes|
  {
    if nodes == [] then children
    else
      var last := nodes[|nodes| - 1];
      Put(Splice(children, nodes[..|nodes| - 1]), Name(last), last)
  }

  /** The source entries of an iterable shell. */
  function SourceEntries(shell: Shell): seq<(Key, Value)>
    requires IsIterable(shell.value)
  {
    shell.value.value.entries
  }

  /** The children of the node the dispatcher builds for the leftover keys of an unsealed shape. */
  function CatchAllNodes(decode: Dispatcher, shell: Shell): seq<Node>
    requires IsShapedArrayType(shell.declaredType) && IsIterable(shell.value)
    requires shell.declaredType.unsealedType.Some?
  {
    var shape := shell.declaredType;
    ChildNodes(decode(UnsealedShell(shell, shape.unsealedType.value, Leftover(SourceEntries(shell), shape.elements))))
  }

  /** The children of the node built for `shell`: declared ones, then the catch-all ones of an unsealed shape. */
  function ChildrenOf(decode: Dispatcher, shell: Shell): seq<(Key, Node)>
    requires IsShapedArrayType(shell.declaredType) && IsIterable(shell.value)
  {
    var declared := DeclaredChildren(decode, shell, shell.declaredType.elements, SourceEntries(shell));
    if shell.declaredType.unsealedType.None? then declared else Splice(declared, CatchAllNodes(decode, shell))
  }

  // ---------------------------------------------------------------------------
  // Composite value and the whole build
  // ---------------------------------------------------------------------------

  /**
   * The value of the branch: absent as soon as one child is invalid, otherwise
   * every child's value under the child's key, in children order.
   */
  function CompositeValue(children: seq<(Key, Node)>): (r: Option<Value>)
    ensures r.None? <==> !AllValid(children)
    ensures r.Some? ==> r.value.Array? && |r.value.entries| == |children|
    ensures r.Some? ==> forall i | 0 <= i < |children| ::
              r.value.entries[i].0 == children[i].0 && r.value.entries[i].1 == NodeValue(children[i].1)
  {
    if children == [] then Some(Array([]))
    else if !IsValid(children[0].1) then None
    else
      var rest := CompositeValue(children[1..]);
      assert AllValid(children) <==> AllValid(children[1..]) by {
        if AllValid(children[1..]) {
          forall i | 0 <= i < |children| ensures IsValid(children[i].1) {
            if i > 0 { assert children[i] == children[1..][i - 1]; }
          }
        }
      }
      if rest.None? then None
      else Some(Array([(children[0].0, NodeValue(children[0].1))] + rest.value.entries))
  }

  /**
   * `ShapedArrayNodeBuilder::build`: an error node for a source that is not
   * iterable, otherwise a branch over every child that is valid exactly when
   * every child is and a sealed shape saw no undeclared key.
   */
  function Build(decode: Dispatcher, shell: Shell): (n: Node)
    requires IsShapedArrayType(shell.declaredType)
    ensures n.shell == shell
    ensures n.Error? <==> !IsIterable(shell.value)
    ensures n.Error? ==> n.reason == SourceMustBeIterable && ChildNodes(n) == []
    ensures !n.Error? ==> && n.Branch?
                          && n.children == ChildrenOf(decode, shell)
                          && (IsValid(n) <==> AllValid(n.children) && !HasUnexpectedKeys(shell))
  {
    if !IsIterable(shell.value) then Error(shell, SourceMustBeIterable)
    else
      var children := ChildrenOf(decode, shell);
      CheckUnexpectedKeys(Branch(shell, CompositeValue(children), children, []))
  }

  // ---------------------------------------------------------------------------
  // The two loops of the source
  // ---------------------------------------------------------------------------

  /**
   * `ShapedArrayNodeBuilder::children`: the element pass over a working copy
   * of the source, removing each consumed key, then the unsealed merge.
   */
  method Children(decode: Dispatcher, shell: Shell) returns (children: seq<(Key, Node)>)
    requires IsShapedArrayType(shell.declaredType) && IsIterable(shell.value)
    ensures children == ChildrenOf(decode, shell)
  {
    var shape := shell.declaredType;
    var elements := shape.elements;
    ghost var input := shell.value.value.entries;
    var value := shell.value.value.entries;
    children := [];
    RemoveNoKeys(input);
    assert DeclaredKeys(elements[..0]) == {};

    for i := 0 to |elements|
      invariant value == RemoveKeys(input, DeclaredKeys(elements[..i]))
      invariant children == DeclaredChildren(decode, shell, elements[..i], input)
    {
      var element := elements[i];
      var key := element.key;
      ElementPassStep(decode, shell, elements, input, i, value, children);

      var child := Child(shell, key, element.valueType);
      if HasKey(value, key) {
        child := WithValue(child, Get(value, key));
      } else if element.optional {
        continue;
      }
      assert child == ElementShell(shell, element, input);
      children := Put(children, key, decode(child));
      value := Remove(value, key);
    }
    assert elements[..|elements|] == elements;

    if shape.unsealedType.Some? {
      var unsealedShell := UnsealedShell(shell, shape.unsealedType.value, value);
      var unsealedChildren := ChildNodes(decode(unsealedShell));
      ghost var declared := children;
      for j := 0 to |unsealedChildren|
        invariant children == Splice(declared, unsealedChildren[..j])
      {
        SpliceOneMore(declared, unsealedChildren, j);
        var unsealedChild := unsealedChildren[j];
        children := Put(children, Name(unsealedChild), unsealedChild);
      }
      assert unsealedChildren[..|unsealedChildren|] == unsealedChildren;
    }
  }

  /** `ShapedArrayNodeBuilder::buildArray`: stops at the first invalid child. */
  method BuildArray(children: seq<(Key, Node)>) returns (composite: Option<Value>)
    requires UniqueKeys(children)
    ensures composite == CompositeValue(children)
  {
    var entries: seq<(Key, Value)> := [];
    for i := 0 to |children|
      invariant |entries| == i
      invariant forall j | 0 <= j < i ::
                  IsValid(children[j].1) && entries[j] == (children[j].0, NodeValue(children[j].1))
    {
      var (key, child) := children[i];
      if !IsValid(child) {
        return None;
      }
      assert forall j | 0 <= j < i :: Keys(entries)[j] != key;
      entries := Put(entries, key, NodeValue(child));
    }
    var expected := CompositeValue(children);
    assert expected.Some?;
    assert entries == expected.value.entries;
    composite := Some(Array(entries));
  }

  // ---------------------------------------------------------------------------
  // Helper lemmas for the loops
  // ---------------------------------------------------------------------------

  lemma DeclaredKeysSnoc(elements: seq<Element>, e: Element)
    ensures DeclaredKeys(elements + [e]) == DeclaredKeys(elements) + {e.key}
  {
  }

  lemma KeyNotYetDeclared(elements: seq<Element>, i: nat)
    requires UniqueElementKeys(elements) && i < |elements|
    ensures elements[i].key !in DeclaredKeys(elements[..i])
  {
  }

  lemma DeclaredChildrenSnoc(decode: Dispatcher, shell: Shell, elements: seq<Element>,
                             input: seq<(Key, Value)>, e: Element)
    ensures DeclaredChildren(decode, shell, elements + [e], input)
         == DeclaredChildren(decode, shell, elements, input)
            + (if Wants(e, input) then [(e.key, decode(ElementShell(shell, e, input)))] else [])
  {
  }

  /** Every key of the element pass's children is a declared key. */
  lemma DeclaredChildrenKeys(decode: Dispatcher, shell: Shell, elements: seq<Element>, input: seq<(Key, Value)>)
    ensures forall k :: HasKey(DeclaredChildren(decode, shell, elements, input), k) ==> k in DeclaredKeys(elements)
  {
  }

  /** One turn of the unsealed merge stores the next node under its name. */
  lemma SpliceOneMore(children: seq<(Key, Node)>, nodes: seq<Node>, j: nat)
    requires j < |nodes|
    ensures Splice(children, nodes[..j + 1]) == Put(Splice(children, nodes[..j]), Name(nodes[j]), nodes[j])
  {
    assert nodes[..j + 1][..j] == nodes[..j];
  }

  /**
   * One turn of the element pass over a working copy `value` that has lost the
   * keys declared before element `i`: the copy still holds that element's key
   * exactly as the source does, and the turn (skip, or store the child and
   * remove the key) leads to the state after element `i`.
   */
  lemma ElementPassStep(decode: Dispatcher, shell: Shell, elements: seq<Element>, input: seq<(Key, Value)>, i: nat,
                        value: seq<(Key, Value)>, children: seq<(Key, Node)>)
    requires UniqueElementKeys(elements) && i < |elements|
    requires value == RemoveKeys(input, DeclaredKeys(elements[..i]))
    requires children == DeclaredChildren(decode, shell, elements[..i], input)
    ensures HasKey(value, elements[i].key) <==> HasKey(input, elements[i].key)
    ensures HasKey(input, elements[i].key) ==> Get(value, elements[i].key) == Get(input, elements[i].key)
    ensures !Wants(elements[i], input) ==>
              && value == RemoveKeys(input, DeclaredKeys(elements[..i + 1]))
              && children == DeclaredChildren(decode, shell, elements[..i + 1], input)
    ensures Wants(elements[i], input) ==>
              && Remove(value, elements[i].key) == RemoveKeys(input, DeclaredKeys(elements[..i + 1]))
              && Put(children, elements[i].key, decode(ElementShell(shell, elements[i], input)))
                 == DeclaredChildren(decode, shell, elements[..i + 1], input)
  {
    var e := elements[i];
    assert elements[..i + 1] == elements[..i] + [e];
    DeclaredKeysSnoc(elements[..i], e);
    KeyNotYetDeclared(elements, i);
    DeclaredChildrenSnoc(decode, shell, elements[..i], input, e);
    RemoveKeysOneMore(input, DeclaredKeys(elements[..i]), e.key);
    DeclaredChildrenKeys(decode, shell, elements[..i], input);
  }

  // ---------------------------------------------------------------------------
  // Properties
  // ---------------------------------------------------------------------------

  /** A source that is not iterable yields one error node, whatever the dispatcher would answer. */
  lemma NonIterableSourceIsError(decode: Dispatcher, other: Dispatcher, shell: Shell)
    requires IsShapedArrayType(shell.declaredType) && !IsIterable(shell.value)
    ensures Build(decode, shell) == Error(shell, SourceMustBeIterable)
    ensures ChildNodes(Build(decode, shell)) == [] && !IsValid(Build(decode, shell))
    ensures Build(decode, shell) == Build(other, shell)
  {
  }

  /** `a` is declared before `b`. */
  predicate DeclaredBefore(elements: seq<Element>, a: Element, b: Element)
  {
    exists p, q :: 0 <= p < q < |elements| && elements[p] == a && elements[q] == b
  }

  /** The elements decoded keep their declaration order. */
  lemma {:induction false} WantedInDeclarationOrder(elements: seq<Element>, input: seq<(Key, Value)>)
    ensures forall i, j | 0 <= i < j < |Wanted(elements, input)| ::
      DeclaredBefore(elements, Wanted(elements, input)[i], Wanted(elements, input)[j])
    decreases |elements|
  {
    if elements != [] {
      var n := |elements|;
      var init, last := elements[..n - 1], elements[n - 1];
      WantedInDeclarationOrder(init, input);
      var wi := Wanted(init, input);
      var w := Wanted(elements, input);
      assert w == wi + (if Wants(last, input) then [last] else []);
      forall i, j | 0 <= i < j < |w| ensures DeclaredBefore(elements, w[i], w[j]) {
        if j < |wi| {
          assert DeclaredBefore(init, wi[i], wi[j]);
          var p, q :| 0 <= p < q < |init| && init[p] == wi[i] && init[q] == wi[j];
          assert elements[p] == w[i] && elements[q] == w[j];
        } else {
          assert wi[i] in wi;
          var p :| 0 <= p < |init| && init[p] == wi[i];
          assert elements[p] == w[i] && elements[n - 1] == w[j];
        }
      }
    }
  }

  /** The element pass never produces two children under one key. */
  lemma DeclaredChildrenUniqueKeys(decode: Dispatcher, shell: Shell, elements: seq<Element>, input: seq<(Key, Value)>)
    requires UniqueElementKeys(elements)
    ensures UniqueKeys(DeclaredChildren(decode, shell, elements, input))
  {
    WantedInDeclarationOrder(elements, input);
    var w := Wanted(elements, input);
    var dc := DeclaredChildren(decode, shell, elements, input);
    forall i, j | 0 <= i < j < |dc| ensures dc[i].0 != dc[j].0 {
      assert DeclaredBefore(elements, w[i], w[j]);
    }
  }

  /** The element keyed `a` is declared before the element keyed `b`. */
  predicate KeyDeclaredBefore(elements: seq<Element>, a: Key, b: Key)
  {
    exists p, q :: 0 <= p < q < |elements| && elements[p].key == a && elements[q].key == b
  }

  /** Declared children appear in declaration order, whatever the order of the source. */
  lemma DeclaredChildrenInDeclarationOrder(decode: Dispatcher, shell: Shell, elements: seq<Element>,
                                           input: seq<(Key, Value)>)
    ensures forall i, j | 0 <= i < j < |DeclaredChildren(decode, shell, elements, input)| ::
      KeyDeclaredBefore(elements, DeclaredChildren(decode, shell, elements, input)[i].0,
                        DeclaredChildren(decode, shell, elements, input)[j].0)
  {
    WantedInDeclarationOrder(elements, input);
    var dc := DeclaredChildren(decode, shell, elements, input);
    var w := Wanted(elements, input);
    forall i, j | 0 <= i < j < |dc| ensures KeyDeclaredBefore(elements, dc[i].0, dc[j].0) {
      assert DeclaredBefore(elements, w[i], w[j]);
      var p, q :| 0 <= p < q < |elements| && elements[p] == w[i] && elements[q] == w[j];
      assert elements[p].key == dc[i].0 && elements[q].key == dc[j].0;
    }
  }

  /** Which elements are decoded depends on the source's keys only, never on their order. */
  lemma {:induction false} WantedIgnoresSourceOrder(elements: seq<Element>, input: seq<(Key, Value)>,
                                                    reordered: seq<(Key, Value)>)
    requires KeySet(input) == KeySet(reordered)
    ensures Wanted(elements, input) == Wanted(elements, reordered)
    decreases |elements|
  {
    if elements != [] {
      var last := elements[|elements| - 1];
      WantedIgnoresSourceOrder(elements[..|elements| - 1], input, reordered);
      KeySetHasKey(input, last.key);
      KeySetHasKey(reordered, last.key);
    }
  }

  /** The keys of the declared children, in order, are the same however the source orders its keys. */
  lemma DeclaredKeysIgnoreSourceOrder(decode: Dispatcher, shell: Shell, elements: seq<Element>,
                                      input: seq<(Key, Value)>, reordered: seq<(Key, Value)>)
    requires KeySet(input) == KeySet(reordered)
    ensures Keys(DeclaredChildren(decode, shell, elements, input))
         == Keys(DeclaredChildren(decode, shell, elements, reordered))
  {
    WantedIgnoresSourceOrder(elements, input, reordered);
  }

  /**
   * Each element the pass decodes is decoded with its own declared type, one
   * key below the shape, with the source value when the key is present and
   * with no value when it is absent; the dispatcher's answer is kept as is.
   */
  lemma DeclaredChildOfElement(decode: Dispatcher, shell: Shell, elements: seq<Element>,
                               input: seq<(Key, Value)>, e: Element)
    requires UniqueElementKeys(elements) && e in elements && Wants(e, input)
    ensures var dc := DeclaredChildren(decode, shell, elements, input);
      && HasKey(dc, e.key)
      && Get(dc, e.key) == decode(Shell(e.valueType,
                                        if HasKey(input, e.key) then Some(Get(input, e.key)) else None,
                                        shell.path + [e.key]))
  {
    var dc := DeclaredChildren(decode, shell, elements, input);
    var w := Wanted(elements, input);
    var j :| 0 <= j < |w| && w[j] == e;
    DeclaredChildrenUniqueKeys(decode, shell, elements, input);
    GetAt(dc, j);
  }

  /** A required element always gets a child, whether or not its key is in the source. */
  lemma RequiredElementHasChild(decode: Dispatcher, shell: Shell, elements: seq<Element>,
                                input: seq<(Key, Value)>, e: Element)
    requires UniqueElementKeys(elements) && e in elements && !e.optional
    ensures HasKey(DeclaredChildren(decode, shell, elements, input), e.key)
    ensures !HasKey(input, e.key) ==>
      Get(DeclaredChildren(decode, shell, elements, input), e.key) == decode(Shell(e.valueType, None, shell.path + [e.key]))
  {
    DeclaredChildOfElement(decode, shell, elements, input, e);
  }

  /** An optional element whose key is absent gets no child, and no context is made for it. */
  lemma OptionalAbsentElementSkipped(decode: Dispatcher, shell: Shell, elements: seq<Element>,
                                     input: seq<(Key, Value)>, e: Element)
    requires UniqueElementKeys(elements) && e in elements && e.optional && !HasKey(input, e.key)
    ensures !HasKey(DeclaredChildren(decode, shell, elements, input), e.key)
    ensures forall c | c in DeclaredCalls(shell, elements, input) :: c.path != shell.path + [e.key]
  {
    var w := Wanted(elements, input);
    var dc := DeclaredChildren(decode, shell, elements, input);
    var calls := DeclaredCalls(shell, elements, input);
    forall j | 0 <= j < |w| ensures w[j].key != e.key {
      assert w[j] in w;
      var p :| 0 <= p < |elements| && elements[p] == w[j];
      var q :| 0 <= q < |elements| && elements[q] == e;
      assert p != q;
    }
    forall j | 0 <= j < |dc| ensures Keys(dc)[j] != e.key {
    }
    forall c | c in calls ensures c.path != shell.path + [e.key] {
      var j :| 0 <= j < |calls| && calls[j] == c;
      assert c.path[|c.path| - 1] == w[j].key;
    }
  }

  /** `c` is the context of a declared element the pass decodes: that element's type, key and value. */
  predicate ElementContext(c: Shell, shell: Shell, elements: seq<Element>, input: seq<(Key, Value)>)
  {
    exists e ::
      && e in elements && Wants(e, input)
      && c.declaredType == e.valueType
      && c.path == shell.path + [e.key]
      && (c.value.Some? <==> HasKey(input, e.key))
  }

  /**
   * The element pass hands the dispatcher one context per decoded element, in
   * order: the i-th context carries the i-th decoded element's own type, its
   * key appended to the path, and its source value when the key is present.
   */
  lemma DeclaredCallsUseElementTypes(shell: Shell, elements: seq<Element>, input: seq<(Key, Value)>)
    ensures |DeclaredCalls(shell, elements, input)| == |Wanted(elements, input)|
    ensures forall i | 0 <= i < |DeclaredCalls(shell, elements, input)| ::
      && DeclaredCalls(shell, elements, input)[i].declaredType == Wanted(elements, input)[i].valueType
      && DeclaredCalls(shell, elements, input)[i].path == shell.path + [Wanted(elements, input)[i].key]
      && DeclaredCalls(shell, elements, input)[i].value
         == (if HasKey(input, Wanted(elements, input)[i].key) then Some(Get(input, Wanted(elements, input)[i].key)) else None)
    ensures forall i | 0 <= i < |DeclaredCalls(shell, elements, input)| ::
      ElementContext(DeclaredCalls(shell, elements, input)[i], shell, elements, input)
  {
  }

  /**
   * The map handed to the catch-all decode is the source without the declared
   * keys: the other keys, with their source values, in source order.
   */
  lemma LeftoverIsSourceMinusDeclared(input: seq<(Key, Value)>, elements: seq<Element>)
    ensures forall k :: HasKey(Leftover(input, elements), k) <==> HasKey(input, k) && k !in DeclaredKeys(elements)
    ensures forall k :: HasKey(Leftover(input, elements), k) ==> Get(Leftover(input, elements), k) == Get(input, k)
    ensures IsSubsequence(Leftover(input, elements), input)
  {
  }

  /** Splicing nodes in keeps every earlier key in its place. */
  lemma {:induction false} SpliceKeepsEarlierKeys(children: seq<(Key, Node)>, nodes: seq<Node>)
    ensures |children| <= |Splice(children, nodes)|
    ensures Keys(Splice(children, nodes))[..|children|] == Keys(children)
    decreases |nodes|
  {
    if nodes != [] {
      var init := Splice(children, nodes[..|nodes| - 1]);
      SpliceKeepsEarlierKeys(children, nodes[..|nodes| - 1]);
      var last := nodes[|nodes| - 1];
      if !HasKey(init, Name(last)) {
        assert Keys(init + [(Name(last), last)])[..|init|] == Keys(init);
      }
    }
  }

  /** Nodes paired with their own names, as splicing appends them when no name is taken. */
  function NamedEntries(nodes: seq<Node>): seq<(Key, Node)>
  {
    seq(|nodes|, i requires 0 <= i < |nodes| => (Name(nodes[i]), nodes[i]))
  }

  /** A name no node carries is not a key of the nodes' named entries. */
  lemma NameNotAmongNamed(nodes: seq<Node>, name: Key)
    requires forall i | 0 <= i < |nodes| :: Name(nodes[i]) != name
    ensures !HasKey(NamedEntries(nodes), name)
  {
    forall j | 0 <= j < |nodes| ensures Keys(NamedEntries(nodes))[j] != name {
      assert Keys(NamedEntries(nodes))[j] == Name(nodes[j]);
    }
  }

  /** Nodes whose names are distinct and new are appended after the existing children, in order. */
  lemma {:induction false} SpliceAppendsFreshNames(children: seq<(Key, Node)>, nodes: seq<Node>)
    requires forall i | 0 <= i < |nodes| :: !HasKey(children, Name(nodes[i]))
    requires forall i, j | 0 <= i < j < |nodes| :: Name(nodes[i]) != Name(nodes[j])
    ensures Splice(children, nodes) == children + NamedEntries(nodes)
    decreases |nodes|
  {
    if nodes != [] {
      var n := |nodes|;
      var init, last := nodes[..n - 1], nodes[n - 1];
      SpliceAppendsFreshNames(children, init);
      var named := NamedEntries(init);
      NameNotAmongNamed(init, Name(last));
      HasKeyConcat(children, named, Name(last));
      SpliceFreshLast(children, nodes);
      NamedEntriesSnoc(nodes);
      assert (children + named) + [(Name(last), last)] == children + (named + [(Name(last), last)]);
    }
  }

  /** Splicing a node whose name is not yet taken appends it. */
  lemma SpliceFreshLast(children: seq<(Key, Node)>, nodes: seq<Node>)
    requires nodes != [] && !HasKey(Splice(children, nodes[..|nodes| - 1]), Name(nodes[|nodes| - 1]))
    ensures Splice(children, nodes) == Splice(children, nodes[..|nodes| - 1]) + [(Name(nodes[|nodes| - 1]), nodes[|nodes| - 1])]
  {
  }

  /** The named entries of `nodes` end with the last node's entry. */
  lemma NamedEntriesSnoc(nodes: seq<Node>)
    requires nodes != []
    ensures NamedEntries(nodes) == NamedEntries(nodes[..|nodes| - 1]) + [(Name(nodes[|nodes| - 1]), nodes[|nodes| - 1])]
  {
  }

  /** Splicing never gives two children the same key. */
  lemma {:induction false} SpliceKeepsUniqueKeys(children: seq<(Key, Node)>, nodes: seq<Node>)
    requires UniqueKeys(children)
    ensures UniqueKeys(Splice(children, nodes))
    decreases |nodes|
  {
    if nodes != [] {
      var last := nodes[|nodes| - 1];
      SpliceKeepsUniqueKeys(children, nodes[..|nodes| - 1]);
      PutKeepsUnique(Splice(children, nodes[..|nodes| - 1]), Name(last), last);
    }
  }

  /** The children of a shaped array never repeat a key, as a PHP array cannot. */
  lemma ChildrenUniqueKeys(decode: Dispatcher, shell: Shell)
    requires IsShapedArrayType(shell.declaredType) && IsIterable(shell.value)
    ensures UniqueKeys(ChildrenOf(decode, shell))
  {
    var declared := DeclaredChildren(decode, shell, shell.declaredType.elements, SourceEntries(shell));
    DeclaredChildrenUniqueKeys(decode, shell, shell.declaredType.elements, SourceEntries(shell));
    if shell.declaredType.unsealedType.Some? {
      SpliceKeepsUniqueKeys(declared, CatchAllNodes(decode, shell));
    }
  }

  /** The declared children come first, in the order the element pass made them. */
  lemma DeclaredChildrenComeFirst(decode: Dispatcher, shell: Shell)
    requires IsShapedArrayType(shell.declaredType) && IsIterable(shell.value)
    ensures var declared := DeclaredChildren(decode, shell, shell.declaredType.elements, SourceEntries(shell));
      && |declared| <= |ChildrenOf(decode, shell)|
      && Keys(ChildrenOf(decode, shell))[..|declared|] == Keys(declared)
  {
    var declared := DeclaredChildren(decode, shell, shell.declaredType.elements, SourceEntries(shell));
    if shell.declaredType.unsealedType.Some? {
      SpliceKeepsEarlierKeys(declared, CatchAllNodes(decode, shell));
    } else {
      assert Keys(declared)[..|declared|] == Keys(declared);
    }
  }

  /**
   * What the dispatcher is expected to return for an array: children named
   * after distinct keys of the array it was handed.
   */
  predicate NamedAfterDistinctKeys(nodes: seq<Node>, source: seq<(Key, Value)>)
  {
    && (forall i | 0 <= i < |nodes| :: HasKey(source, Name(nodes[i])))
    && (forall i, j | 0 <= i < j < |nodes| :: Name(nodes[i]) != Name(nodes[j]))
  }

  /**
   * For an unsealed shape, when the dispatcher names the catch-all children
   * after keys of the leftover map, those children follow every declared child,
   * none of them carries a declared key, and no declared child is overwritten.
   */
  lemma CatchAllChildrenFollowDeclared(decode: Dispatcher, shell: Shell)
    requires IsShapedArrayType(shell.declaredType) && IsIterable(shell.value)
    requires shell.declaredType.unsealedType.Some?
    requires NamedAfterDistinctKeys(CatchAllNodes(decode, shell),
                                    Leftover(SourceEntries(shell), shell.declaredType.elements))
    ensures var nodes := CatchAllNodes(decode, shell);
      && ChildrenOf(decode, shell)
         == DeclaredChildren(decode, shell, shell.declaredType.elements, SourceEntries(shell)) + NamedEntries(nodes)
      && forall i | 0 <= i < |nodes| :: Name(nodes[i]) !in DeclaredKeys(shell.declaredType.elements)
  {
    var elements, input := shell.declaredType.elements, SourceEntries(shell);
    var declared := DeclaredChildren(decode, shell, elements, input);
    var nodes := CatchAllNodes(decode, shell);
    DeclaredChildrenKeys(decode, shell, elements, input);
    SpliceAppendsFreshNames(declared, nodes);
  }

  /** Every key of the leftover map names one of the catch-all nodes. */
  predicate CoversLeftover(nodes: seq<Node>, leftover: seq<(Key, Value)>)
  {
    forall j | 0 <= j < |leftover| :: exists i | 0 <= i < |nodes| :: Name(nodes[i]) == leftover[j].0
  }

  /**
   * For an unsealed shape whose catch-all nodes are named after distinct keys
   * of the leftover map and cover every one of them, each source key that no
   * element declares has a child in the built node: the catch-all node of that
   * name. When the node has a value, the key is in it too.
   */
  lemma UndeclaredKeyHasCatchAllChild(decode: Dispatcher, shell: Shell, k: Key)
    requires IsShapedArrayType(shell.declaredType) && IsIterable(shell.value)
    requires shell.declaredType.unsealedType.Some?
    requires NamedAfterDistinctKeys(CatchAllNodes(decode, shell), Leftover(SourceEntries(shell), shell.declaredType.elements))
    requires CoversLeftover(CatchAllNodes(decode, shell), Leftover(SourceEntries(shell), shell.declaredType.elements))
    requires HasKey(SourceEntries(shell), k) && k !in DeclaredKeys(shell.declaredType.elements)
    ensures HasKey(Build(decode, shell).children, k)
    ensures exists i | 0 <= i < |CatchAllNodes(decode, shell)| ::
      Name(CatchAllNodes(decode, shell)[i]) == k && Get(Build(decode, shell).children, k) == CatchAllNodes(decode, shell)[i]
    ensures Build(decode, shell).composite.Some? ==> HasKey(Build(decode, shell).composite.value.entries, k)
  {
    var elements, input := shell.declaredType.elements, SourceEntries(shell);
    var declared := DeclaredChildren(decode, shell, elements, input);
    var nodes := CatchAllNodes(decode, shell);
    var i := CoveringNode(nodes, Leftover(input, elements), k);
    NamedEntryAt(nodes, i);
    CatchAllChildrenFollowDeclared(decode, shell);
    DeclaredChildrenKeys(decode, shell, elements, input);
    GetConcatRight(declared, NamedEntries(nodes), k);
    CompositeValueKeys(Build(decode, shell).children, k);
  }

  /** A covered key of the leftover map is the name of some catch-all node. */
  lemma CoveringNode(nodes: seq<Node>, leftover: seq<(Key, Value)>, k: Key) returns (i: nat)
    requires CoversLeftover(nodes, leftover) && HasKey(leftover, k)
    ensures i < |nodes| && Name(nodes[i]) == k
  {
    var l :| 0 <= l < |leftover| && Keys(leftover)[l] == k;
    i :| 0 <= i < |nodes| && Name(nodes[i]) == leftover[l].0;
  }

  /** Among nodes with distinct names, a node's name looks up that node in their named entries. */
  lemma NamedEntryAt(nodes: seq<Node>, i: nat)
    requires i < |nodes| && forall a, b | 0 <= a < b < |nodes| :: Name(nodes[a]) != Name(nodes[b])
    ensures HasKey(NamedEntries(nodes), Name(nodes[i])) && Get(NamedEntries(nodes), Name(nodes[i])) == nodes[i]
  {
    assert NamedEntries(nodes)[i] == (Name(nodes[i]), nodes[i]);
    GetAt(NamedEntries(nodes), i);
  }

  /** The composite value, when there is one, holds every key of the children. */
  lemma CompositeValueKeys(children: seq<(Key, Node)>, k: Key)
    requires HasKey(children, k)
    ensures CompositeValue(children).Some? ==> HasKey(CompositeValue(children).value.entries, k)
  {
    var composite := CompositeValue(children);
    if composite.Some? {
      var j :| 0 <= j < |children| && Keys(children)[j] == k;
      assert Keys(composite.value.entries)[j] == k;
    }
  }

  /** A sealed shape never takes the catch-all branch: its children are the present or required elements. */
  lemma SealedChildrenAreDeclared(decode: Dispatcher, shell: Shell)
    requires IsShapedArrayType(shell.declaredType) && IsIterable(shell.value)
    requires shell.declaredType.unsealedType.None?
    ensures ChildrenOf(decode, shell) == DeclaredChildren(decode, shell, shell.declaredType.elements, SourceEntries(shell))
    ensures forall k :: HasKey(ChildrenOf(decode, shell), k) <==>
      exists e :: e in shell.declaredType.elements && Wants(e, SourceEntries(shell)) && e.key == k
  {
    var elements, input := shell.declaredType.elements, SourceEntries(shell);
    var dc := DeclaredChildren(decode, shell, elements, input);
    var w := Wanted(elements, input);
    forall k ensures HasKey(dc, k) <==> exists e :: e in elements && Wants(e, input) && e.key == k {
      if HasKey(dc, k) {
        var j :| 0 <= j < |dc| && Keys(dc)[j] == k;
        assert w[j] in w;
      }
      if e :| e in elements && Wants(e, input) && e.key == k {
        var j :| 0 <= j < |w| && w[j] == e;
        assert Keys(dc)[j] == k;
      }
    }
  }

  /**
   * The built node of an iterable source is a branch that keeps the shell as
   * given and every child; its value is absent exactly when a child is
   * invalid, and it is valid exactly when every child is and no unexpected key
   * was found.
   */
  lemma BuildKeepsEveryChild(decode: Dispatcher, shell: Shell)
    requires IsShapedArrayType(shell.declaredType) && IsIterable(shell.value)
    ensures var n := Build(decode, shell);
      && n.Branch? && n.shell == shell
      && n.children == ChildrenOf(decode, shell)
      && n.composite == CompositeValue(n.children)
      && (n.composite.None? <==> !AllValid(n.children))
      && (IsValid(n) <==> AllValid(n.children) && !HasUnexpectedKeys(shell))
  {
  }

  /** A sealed shape fed a key it does not declare gives an invalid node that still holds every child. */
  lemma SealedUnexpectedKeyIsInvalid(decode: Dispatcher, shell: Shell, i: nat)
    requires IsShapedArrayType(shell.declaredType) && IsIterable(shell.value)
    requires shell.declaredType.unsealedType.None?
    requires i < |SourceEntries(shell)| && SourceEntries(shell)[i].0 !in DeclaredKeys(shell.declaredType.elements)
    ensures !IsValid(Build(decode, shell))
    ensures Build(decode, shell).children == ChildrenOf(decode, shell)
  {
  }

  /**
   * A sealed shape fed only declared keys, whose decoded children are all
   * valid, gives a valid node whose value holds each child's value under the
   * child's key, in declaration order.
   */
  lemma SealedDeclaredSourceIsValid(decode: Dispatcher, shell: Shell)
    requires IsShapedArrayType(shell.declaredType) && IsIterable(shell.value)
    requires shell.declaredType.unsealedType.None?
    requires forall i | 0 <= i < |SourceEntries(shell)| ::
      SourceEntries(shell)[i].0 in DeclaredKeys(shell.declaredType.elements)
    requires AllValid(DeclaredChildren(decode, shell, shell.declaredType.elements, SourceEntries(shell)))
    ensures IsValid(Build(decode, shell))
    ensures var dc := DeclaredChildren(decode, shell, shell.declaredType.elements, SourceEntries(shell));
      var v := NodeValue(Build(decode, shell));
      && v.Array? && |v.entries| == |dc|
      && forall i | 0 <= i < |dc| :: v.entries[i].0 == dc[i].0 && v.entries[i].1 == NodeValue(dc[i].1)
  {
  }

  /** Whether the children the dispatcher returns for the leftover map of an unsealed shape are named after its keys. */
  predicate CatchAllNamedFromLeftover(decode: Dispatcher, shell: Shell)
    requires IsShapedArrayType(shell.declaredType) && IsIterable(shell.value)
  {
    shell.declaredType.unsealedType.Some? ==>
      NamedAfterDistinctKeys(CatchAllNodes(decode, shell), Leftover(SourceEntries(shell), shell.declaredType.elements))
  }

  /** Every required element has a child in the built node, sealed shape or not. */
  lemma RequiredElementInBuild(decode: Dispatcher, shell: Shell, e: Element)
    requires IsShapedArrayType(shell.declaredType) && IsIterable(shell.value)
    requires e in shell.declaredType.elements && !e.optional
    ensures HasKey(Build(decode, shell).children, e.key)
  {
    var elements, input := shell.declaredType.elements, SourceEntries(shell);
    var declared := DeclaredChildren(decode, shell, elements, input);
    var children := ChildrenOf(decode, shell);
    RequiredElementHasChild(decode, shell, elements, input, e);
    DeclaredChildrenComeFirst(decode, shell);
    var j :| 0 <= j < |declared| && Keys(declared)[j] == e.key;
    assert Keys(children)[..|declared|][j] == e.key;
  }

  /** The children of the built node begin with the declared children, exactly, when the catch-all ones are named from the leftover map. */
  lemma BuildChildrenStartWithDeclared(decode: Dispatcher, shell: Shell)
    requires IsShapedArrayType(shell.declaredType) && IsIterable(shell.value)
    requires CatchAllNamedFromLeftover(decode, shell)
    ensures exists rest :: && Build(decode, shell).children
                              == DeclaredChildren(decode, shell, shell.declaredType.elements, SourceEntries(shell)) + rest
                           && forall k :: HasKey(rest, k) ==> k !in DeclaredKeys(shell.declaredType.elements)
  {
    var declared := DeclaredChildren(decode, shell, shell.declaredType.elements, SourceEntries(shell));
    if shell.declaredType.unsealedType.None? {
      assert Build(decode, shell).children == declared + [];
    } else {
      CatchAllChildrenFollowDeclared(decode, shell);
      var nodes := CatchAllNodes(decode, shell);
      var rest := NamedEntries(nodes);
      forall k | HasKey(rest, k) ensures k !in DeclaredKeys(shell.declaredType.elements) {
        var i :| 0 <= i < |rest| && Keys(rest)[i] == k;
      }
      assert Build(decode, shell).children == declared + rest;
    }
  }

  /**
   * In the built node, each present or required element's child is the
   * dispatcher's answer for the element's own context, and an optional
   * element whose key is absent has no child, when the catch-all children are
   * named from the leftover map (always, for a sealed shape).
   */
  lemma ElementChildrenInBuild(decode: Dispatcher, shell: Shell, e: Element)
    requires IsShapedArrayType(shell.declaredType) && IsIterable(shell.value)
    requires CatchAllNamedFromLeftover(decode, shell)
    requires e in shell.declaredType.elements
    ensures Wants(e, SourceEntries(shell)) ==>
      && HasKey(Build(decode, shell).children, e.key)
      && Get(Build(decode, shell).children, e.key)
         == decode(Shell(e.valueType,
                         if HasKey(SourceEntries(shell), e.key) then Some(Get(SourceEntries(shell), e.key)) else None,
                         shell.path + [e.key]))
    ensures !Wants(e, SourceEntries(shell)) ==> !HasKey(Build(decode, shell).children, e.key)
  {
    var elements, input := shell.declaredType.elements, SourceEntries(shell);
    var declared := DeclaredChildren(decode, shell, elements, input);
    BuildChildrenStartWithDeclared(decode, shell);
    var rest :| Build(decode, shell).children == declared + rest
                && forall k :: HasKey(rest, k) ==> k !in DeclaredKeys(elements);
    assert e.key in DeclaredKeys(elements);
    if Wants(e, input) {
      DeclaredChildOfElement(decode, shell, elements, input, e);
      GetConcat(declared, rest, e.key);
    } else {
      OptionalAbsentElementSkipped(decode, shell, elements, input, e);
      HasKeyConcat(declared, rest, e.key);
    }
  }
}
