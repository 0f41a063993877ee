/**
 * Raw and decoded values, declared types and the decode context ("shell")
 * that the node builders work on.
 */
module Types {
  import opened OrderedMap

  datatype Option<T> = None | Some(value: T)

  /** A PHP scalar (or null). */
  datatype Atom = Null | Bool(b: bool) | Int(i: int) | Str(s: string)

  /**
   * A PHP value as far as this decoder can tell them apart: a scalar, or an
   * iterable already materialised as an ordered array. A PHP array never
   * holds a key twice, but `entries` may; on such an input, which the source
   * never sees, lookups here read the first pair under a key and `unset`
   * drops every pair under it.
   */
  datatype Value = Scalar(atom: Atom) | Array(entries: seq<(Key, Value)>)

  /** One declared element of a shaped array: `key?: type` when optional. */
  datatype Element = Element(key: Key, valueType: Type, optional: bool)

  /**
   * A declared type. Every type other than a shaped array is handled by
   * another node builder and is only named here. `unsealedType` is the type
   * the leftover keys of an unsealed shape are decoded with (for instance
   * `array<string>`); it is `None` for a sealed shape.
   */
  datatype Type =
    | Named(name: string)
    | ShapedArray(elements: seq<Element>, unsealedType: Option<Type>)

  /** The set of declared keys. */
  function DeclaredKeys(elements: seq<Element>): set<Key>
  {
    set e | e in elements :: e.key
  }

  /** A shaped array type never declares the same key twice. */
  predicate UniqueElementKeys(elements: seq<Element>)
  {
    forall i, j :: 0 <= i < j < |elements| ==> elements[i].key != elements[j].key
  }

  /** `$type instanceof ShapedArrayType`, with the invariant such a type keeps. */
  predicate IsShapedArrayType(t: Type)
  {
    t.ShapedArray? && UniqueElementKeys(t.elements)
  }

  /** `is_iterable($value)`; a shell without a value is not iterable. */
  predicate IsIterable(value: Option<Value>)
  {
    value.Some? && value.value.Array?
  }

  /** The decode context: declared type, the value if any, and the path of keys from the root. */
  datatype Shell = Shell(declaredType: Type, value: Option<Value>, path: seq<Key>)

  /** `Shell::child($name, $type)`: a context one key deeper, with no value attached yet. */
  function Child(shell: Shell, name: Key, t: Type): Shell
  {
    Shell(t, None, shell.path + [name])
  }

  /** `Shell::withValue($value)`. */
  function WithValue(shell: Shell, v: Value): Shell
  {
    shell.(value := Some(v))
  }

  /** `Shell::withType($type)`. */
  function WithType(shell: Shell, t: Type): Shell
  {
    shell.(declaredType := t)
  }

  /** The shell's own key: the last key of its path, or the empty key at the root. */
  function ShellName(shell: Shell): Key
  {
    if shell.path == [] then "" else shell.path[|shell.path| - 1]
  }
}
