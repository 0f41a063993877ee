# Shaped-array node builder, modelled in Dafny

This project models the node builder that Valinor's mapper uses for shaped
arrays: `array{id: int, name?: string}` sealed, or `array{id: int, ...<string>}`
unsealed. Given a decode context (a *shell*: declared type, raw value, path),
`ShapedArrayNodeBuilder::build`:

1. returns an error node `SourceMustBeIterable` when the raw value is not iterable;
2. takes a working copy of the source and walks the declared elements in
   declaration order. A present key is decoded with the element's own type and
   the source value. An absent optional key is skipped. An absent required key
   is still decoded, in a context without a value. Each consumed key is removed
   from the working copy;
3. for an unsealed shape, hands the leftover map to the dispatcher under the
   catch-all type and splices the children it returns after the declared ones;
4. builds the composite value. It is null as soon as one child is invalid,
   otherwise it maps each child key to that child's value. Every child stays in
   the branch either way;
5. runs the unexpected-key check on the branch.

Files:

- `OrderedMap.dfy`: PHP arrays as ordered key/value sequences. It gives lookup,
  `$a[$k] = $v` (`Put`: replace in place or append) and `unset` (`Remove`,
  `RemoveKeys`).
- `Types.dfy`: keys, raw values, declared types and shape elements, and the
  shell with `child`, `withValue` and `withType`.
- `TreeNode.dfy`: the result node (`Error`, `Leaf`, `Branch`). Validity is
  derived from the children and any attached violations. `CheckUnexpectedKeys`
  has a minimal stand-in body that attaches one `UnexpectedKeys` violation;
  the lemmas about the builder rely only on its contract.
- `ShapedArrayNodeBuilder.dfy`: the builder. Two specification functions
  describe the result: `ChildrenOf` (declared children, then the catch-all
  splice) and `CompositeValue`. The methods `Children` and `BuildArray` keep
  the source's loops and are proved equal to those functions. `Build` composes
  the functions as `build` composes the private methods. The properties are
  stated as lemmas.

The recursive dispatcher (`RootNodeBuilder::build`) is a parameter
`decode: Shell -> Node`, so nothing is assumed about it. Where a property
needs something from it (the catch-all splice), the lemma states that
assumption as a `requires` clause.

## Model

| member | source | states |
|---|---|---|
| ShapedArrayNodeBuilder.Build | src/Mapper/Tree/Builder/ShapedArrayNodeBuilder.php:19-38 | the node keeps the caller's shell; it is an error `SourceMustBeIterable` without children iff the source is not iterable; otherwise a branch whose children are `ChildrenOf`, valid iff every child is valid and the sealed shape saw no undeclared key |
| ShapedArrayNodeBuilder.NonIterableSourceIsError | src/Mapper/Tree/Builder/ShapedArrayNodeBuilder.php:26-28 | a non-iterable source gives the single error node `SourceMustBeIterable` for the caller's shell, with no children and invalid; the result is the same whatever the dispatcher is, so the dispatcher plays no part |
| ShapedArrayNodeBuilder.Children | src/Mapper/Tree/Builder/ShapedArrayNodeBuilder.php:43-80 | the element loop over a working copy (removing consumed keys) followed by the unsealed merge loop yields exactly `ChildrenOf`: the declared children stated over the caller's source, then the catch-all children of the leftover map |
| ShapedArrayNodeBuilder.Wanted | src/Mapper/Tree/Builder/ShapedArrayNodeBuilder.php:54-63 | an element is decoded iff its key is in the source or it is required |
| ShapedArrayNodeBuilder.WantedInDeclarationOrder | src/Mapper/Tree/Builder/ShapedArrayNodeBuilder.php:54-63 | the decoded elements come in declaration order: of any two, the earlier one is declared first |
| ShapedArrayNodeBuilder.DeclaredChildrenInDeclarationOrder | src/Mapper/Tree/Builder/ShapedArrayNodeBuilder.php:54-65 | the keys of the declared children follow the declaration order of their elements |
| ShapedArrayNodeBuilder.WantedIgnoresSourceOrder | src/Mapper/Tree/Builder/ShapedArrayNodeBuilder.php:54-62 | two sources with the same key set decode the same elements, so the order of the source's keys plays no part |
| ShapedArrayNodeBuilder.DeclaredKeysIgnoreSourceOrder | src/Mapper/Tree/Builder/ShapedArrayNodeBuilder.php:54-65 | the key sequence of the declared children is the same for any two sources with the same key set |
| ShapedArrayNodeBuilder.DeclaredChildrenUniqueKeys | src/Mapper/Tree/Builder/ShapedArrayNodeBuilder.php:65 | the element pass never stores two children under one key |
| ShapedArrayNodeBuilder.DeclaredChildOfElement | src/Mapper/Tree/Builder/ShapedArrayNodeBuilder.php:57-65 | every present or required element has a child under its key. That child is the dispatcher's answer, unchanged, for a context with the element's own type and the path plus the key. The context holds the source value when the key is present and no value when it is absent |
| ShapedArrayNodeBuilder.RequiredElementHasChild | src/Mapper/Tree/Builder/ShapedArrayNodeBuilder.php:57-65 | a required element always has a child. When its key is absent, the child is the dispatcher's answer for a context without a value |
| ShapedArrayNodeBuilder.OptionalAbsentElementSkipped | src/Mapper/Tree/Builder/ShapedArrayNodeBuilder.php:61-62 | an optional element whose key is absent gets no child, and none of the contexts handed to the dispatcher is at its path |
| ShapedArrayNodeBuilder.DeclaredCallsUseElementTypes | src/Mapper/Tree/Builder/ShapedArrayNodeBuilder.php:57-65 | the element pass hands the dispatcher exactly one context per decoded element, in order. The i-th context carries the i-th decoded element's own declared type (never the catch-all type), the path plus that element's key, and the source value when the key is present and none otherwise |
| ShapedArrayNodeBuilder.LeftoverIsSourceMinusDeclared | src/Mapper/Tree/Builder/ShapedArrayNodeBuilder.php:67-71 | the map handed to the catch-all decode holds exactly the source keys that no element declares, with their source values, in source order (a subsequence of the source) |
| ShapedArrayNodeBuilder.SpliceKeepsEarlierKeys | src/Mapper/Tree/Builder/ShapedArrayNodeBuilder.php:74-76 | splicing the catch-all children in never moves or drops a key already present |
| ShapedArrayNodeBuilder.SpliceAppendsFreshNames | src/Mapper/Tree/Builder/ShapedArrayNodeBuilder.php:74-76 | catch-all children with distinct, new names are appended after the existing children, in order, each under its own name |
| ShapedArrayNodeBuilder.SpliceKeepsUniqueKeys | src/Mapper/Tree/Builder/ShapedArrayNodeBuilder.php:74-76 | splicing keeps the children free of repeated keys |
| ShapedArrayNodeBuilder.ChildrenUniqueKeys | src/Mapper/Tree/Builder/ShapedArrayNodeBuilder.php:43-80 | the children of a shaped array never repeat a key |
| ShapedArrayNodeBuilder.DeclaredChildrenComeFirst | src/Mapper/Tree/Builder/ShapedArrayNodeBuilder.php:54-76 | the declared children's keys open the children's key sequence in the same order; the catch-all keys can only follow them |
| ShapedArrayNodeBuilder.CatchAllChildrenFollowDeclared | src/Mapper/Tree/Builder/ShapedArrayNodeBuilder.php:67-76 | for an unsealed shape whose dispatcher names its children after distinct keys of the leftover map, the children are the declared children followed by the catch-all ones. No catch-all child has a declared key, so no declared child is overwritten |
| ShapedArrayNodeBuilder.SealedChildrenAreDeclared | src/Mapper/Tree/Builder/ShapedArrayNodeBuilder.php:70 | a sealed shape takes no catch-all branch: its children are the declared children, and a key has a child iff some element with that key is present or required |
| ShapedArrayNodeBuilder.UndeclaredKeyHasCatchAllChild | src/Mapper/Tree/Builder/ShapedArrayNodeBuilder.php:67-76 | for an unsealed shape whose dispatcher names the catch-all children after distinct leftover keys and covers every leftover key, each source key that no element declares has a child in the built node. That child is the catch-all node of that name, decoded under the catch-all type, and the key is in the node's value whenever it has one |
| ShapedArrayNodeBuilder.CompositeValue | src/Mapper/Tree/Builder/ShapedArrayNodeBuilder.php:86-99 | the composite value is absent iff some child is invalid; otherwise it is an array of the same length holding each child's key and value, in children order |
| ShapedArrayNodeBuilder.BuildArray | src/Mapper/Tree/Builder/ShapedArrayNodeBuilder.php:86-99 | the loop, which returns null at the first invalid child, computes `CompositeValue` |
| ShapedArrayNodeBuilder.BuildKeepsEveryChild | src/Mapper/Tree/Builder/ShapedArrayNodeBuilder.php:30-37 | an iterable source gives a branch that keeps the caller's shell and value unchanged and every child. Its value is absent iff some child is invalid. It is valid iff every child is valid and the sealed shape saw no undeclared key |
| ShapedArrayNodeBuilder.RequiredElementInBuild | src/Mapper/Tree/Builder/ShapedArrayNodeBuilder.php:30-37 | every required element has a child in the built node, sealed shape or not, with nothing assumed of the dispatcher |
| ShapedArrayNodeBuilder.BuildChildrenStartWithDeclared | src/Mapper/Tree/Builder/ShapedArrayNodeBuilder.php:30-37 | when the catch-all children are named after distinct leftover keys (always, when sealed), the built node's children are the declared children followed only by children under undeclared keys |
| ShapedArrayNodeBuilder.ElementChildrenInBuild | src/Mapper/Tree/Builder/ShapedArrayNodeBuilder.php:54-76 | under the same hypothesis, in the built node a present or required element's child is the dispatcher's answer for the element's own context, and an optional element with an absent key has no child |
| ShapedArrayNodeBuilder.SealedUnexpectedKeyIsInvalid | src/Mapper/Tree/Builder/ShapedArrayNodeBuilder.php:35 | a sealed shape fed a key it does not declare gives an invalid node that still holds all its children |
| ShapedArrayNodeBuilder.SealedDeclaredSourceIsValid | src/Mapper/Tree/Builder/ShapedArrayNodeBuilder.php:30-37 | for a sealed shape whose source holds only declared keys and whose decoded children are all valid, the node is valid. Its value maps each child's key to the child's value, in declaration order |
| TreeNode.CheckUnexpectedKeys | src/Mapper/Tree/Builder/ShapedArrayNodeBuilder.php:35 | a branch for a sealed shape whose source has an undeclared key becomes invalid and keeps its shell, value and children; any other node comes back unchanged |
| OrderedMap.Put | src/Mapper/Tree/Builder/ShapedArrayNodeBuilder.php:65 | `$a[$k] = $v` keeps every key in place when `$k` exists and appends when it does not; afterwards `$k` reads `$v` and every other pair is unchanged |
| OrderedMap.PutKeepsUnique | src/Mapper/Tree/Builder/ShapedArrayNodeBuilder.php:75 | assignment never creates a repeated key |
| OrderedMap.Remove | src/Mapper/Tree/Builder/ShapedArrayNodeBuilder.php:67 | `unset` of a key keeps exactly the other keys, with their values and in their order (a subsequence), and leaves a map without the key unchanged |
| OrderedMap.RemoveKeys | src/Mapper/Tree/Builder/ShapedArrayNodeBuilder.php:67 | removing a set of keys keeps exactly the other keys, with their values, in their order (a subsequence) |
| OrderedMap.SubsequenceKeepsOrder | src/Mapper/Tree/Builder/ShapedArrayNodeBuilder.php:67 | any two pairs left after removal stand in the same order as in the original map |
| OrderedMap.RemoveKeysOneMore | src/Mapper/Tree/Builder/ShapedArrayNodeBuilder.php:67 | one `unset` per loop iteration adds up to removing the set of keys seen so far |

## Left out

- The dispatcher `RootNodeBuilder::build` (scalar and nested decoding, reporting a missing value) is not part of this model. It is the arbitrary function `decode`. The model does not record calls; "the dispatcher is not invoked" is stated as "the result does not depend on the dispatcher" and through `DeclaredCalls`, the list of contexts the element pass hands to it.
- CatchAllChildrenFollowDeclared, BuildChildrenStartWithDeclared, ElementChildrenInBuild, UndeclaredKeyHasCatchAllChild: hold only if the dispatcher names the children it returns for the leftover map after distinct keys of that map. The dispatcher's code is not part of this model, so this is a hypothesis and not a proved fact. Without it, `DeclaredChildrenComeFirst` still shows that the declared keys keep their places at the front, and `RequiredElementInBuild` that every required element has a child. `UndeclaredKeyHasCatchAllChild` also needs the dispatcher to return a node for every leftover key (`CoversLeftover`). A catch-all decode that drops leftover keys, for instance by returning an error node without children, is not flagged by the model: only `->children()` of that node is kept, and the unexpected-key check applies to sealed shapes only.
- CheckUnexpectedKeys: `TreeNode::checkUnexpectedKeys` is not part of this model. Its body here is a minimal stand-in that attaches one violation, and the builder's lemmas rely only on its contract. Comparing the source keys with the declared keys of a sealed shape is this model's reading of that check. The mapper settings that allow superfluous keys are not modelled, and neither is the error's message.
- `Shell::child`, `withValue` and `withType` are plain record updates. The shell's other attributes (mapper settings, attributes, parent link) are not modelled.
- `ShapedArrayType::unsealedType` is the stored field `unsealedType`. A sealed shape stores none.
- `iterator_to_array` over `Traversable` objects and generators is not modelled. Every iterable source is an already materialised ordered array. A shell without a value is treated as not iterable.
- PHP's int/string key coercion (`(string)$key` for the child shell) is not modelled. All keys are strings.
- The `assert` on the declared type is the precondition `IsShapedArrayType`. That predicate includes the shaped-array type's own invariant that no key is declared twice.
- The `SourceMustBeIterable` exception is only an error tag. Error messages are not modelled.
- Determinism needs no lemma. Every member of the model is a function of its inputs, and the caller's source is a value that the builder cannot alter.
- The unexpected-key check runs after the branch is built and `CheckUnexpectedKeys` keeps the composite value, so a branch it invalidates still holds one.
