/** The structural hash the Parquet writer uses to validate what it wrote: a
    hasher is built once per column type, composite hashers from the hashers
    of their child types, and a value is hashed by folding the hashes of its
    children with h := 31 * h + child in Java `long` arithmetic. A null
    position hashes to a fixed constant, whatever its type.

    The hash of a primitive value is computed by the engine's type operators,
    which are outside this model: it is the parameter `primitiveHash`. */
module ValidationHash {

  // ---------------------------------------------------------------------
  // Java `long` arithmetic
  // ---------------------------------------------------------------------

  const TwoTo64: int := 0x1_0000_0000_0000_0000
  const MinLong: int := -0x8000_0000_0000_0000
  const MaxLong: int := 0x7fff_ffff_ffff_ffff

  type Long = x: int | MinLong <= x <= MaxLong

  /** The `long` a mathematical integer wraps around to: the low-order 64
      bits in two's complement, as Java multiplication and addition produce
      on overflow (sections 15.17.1 and 15.18.2 of the Java Language
      Specification). */
  function Wrap(n: int): (r: Long)
    ensures (r - n) % TwoTo64 == 0
    ensures MinLong <= n <= MaxLong ==> r == n
  {
    (n - MinLong) % TwoTo64 + MinLong
  }

  /** A large arbitrary prime, the hash of every null position. */
  const NullHashCode: Long := 0x6e3efbd56c16a0cb

  /** One step of the fold: 31 * hash + child, wrapped. */
  function Combine(hash: Long, child: Long): Long
  {
    Wrap(31 * hash + child)
  }

  /** The left fold of Combine over a sequence of child hashes, from 0. */
  function FoldHash(hashes: seq<Long>): Long
  {
    if hashes == [] then 0 else Combine(FoldHash(hashes[..|hashes| - 1]), hashes[|hashes| - 1])
  }

  /** Wrapping once at the end gives what Java computes wrapping after the
      multiplication and again after the addition. */
  lemma {:induction false} CombineIsJavaArithmetic(hash: Long, child: Long)
    ensures Combine(hash, child) == Wrap(Wrap(31 * hash) + child)
  {
    var p := 31 * hash;
    var w := Wrap(p);
    assert (w - p) % TwoTo64 == 0;
    WrapCongruent(w + child, p + child);
  }

  /** Two integers that differ by a multiple of 2^64 wrap to the same `long`. */
  lemma WrapCongruent(a: int, b: int)
    requires (a - b) % TwoTo64 == 0
    ensures Wrap(a) == Wrap(b)
  {
    var k := (a - b) / TwoTo64;
    assert a - b == k * TwoTo64;
    assert a - MinLong == (b - MinLong) + k * TwoTo64;
    ModAddMultiple(b - MinLong, k);
  }

  lemma ModAddMultiple(x: int, k: int)
    ensures (x + k * TwoTo64) % TwoTo64 == x % TwoTo64
  {
    var q, r := x / TwoTo64, x % TwoTo64;
    assert x == q * TwoTo64 + r;
    assert x + k * TwoTo64 == (q + k) * TwoTo64 + r;
  }

  // ---------------------------------------------------------------------
  // Types, values and hashers
  // ---------------------------------------------------------------------

  datatype SqlType =
    | MapType(keyType: SqlType, valueType: SqlType)
    | ArrayType(elementType: SqlType)
    | RowType(fieldTypes: seq<SqlType>)
    | PrimitiveType(name: string)

  datatype Entry = Entry(key: Value, value: Value)

  /** The value at one position of a block. */
  datatype Value =
    | Null
    | PrimitiveValue(payload: string)
    | ArrayValue(elements: seq<Value>)
    | MapValue(entries: seq<Entry>)
    | RowValue(fields: seq<Value>)

  /** Whether a value belongs to a type; null belongs to every type. */
  predicate HasType(v: Value, t: SqlType)
    decreases v
  {
    v.Null? ||
    match t
    case PrimitiveType(_) => v.PrimitiveValue?
    case ArrayType(e) => v.ArrayValue? && forall i :: 0 <= i < |v.elements| ==> HasType(v.elements[i], e)
    case MapType(k, w) =>
      v.MapValue? && forall i :: 0 <= i < |v.entries| ==> HasType(v.entries[i].key, k) && HasType(v.entries[i].value, w)
    case RowType(fs) => v.RowValue? && |v.fields| == |fs| && forall i :: 0 <= i < |fs| ==> HasType(v.fields[i], fs[i])
  }

  /** A hasher, as the composition of the hashers of its child types. */
  datatype Hasher =
    | MapHash(keyHash: Hasher, valueHash: Hasher)
    | ArrayHash(elementHash: Hasher)
    | RowHash(fieldHashes: seq<Hasher>)
    | PrimitiveHash(typeName: string)

  /** Builds the hasher of a type: map, array and row types from the hashers
      of their key and value types, element type, and field types (one per
      field, in order); any other type uses its type's primitive hash. */
  function CreateValidationHash(t: SqlType): (h: Hasher)
    ensures t.RowType? ==> h.RowHash? && |h.fieldHashes| == |t.fieldTypes|
  {
    match t
    case MapType(k, v) => MapHash(CreateValidationHash(k), CreateValidationHash(v))
    case ArrayType(e) => ArrayHash(CreateValidationHash(e))
    case RowType(fs) => RowHash(seq(|fs|, i requires 0 <= i < |fs| => CreateValidationHash(fs[i])))
    case PrimitiveType(name) => PrimitiveHash(name)
  }

  /** Whether a hasher can hash a value: the value has the shape the hasher
      was built for (a block of the hasher's type holds it). */
  predicate Accepts(h: Hasher, v: Value)
    decreases v
  {
    v.Null? ||
    match h
    case PrimitiveHash(_) => v.PrimitiveValue?
    case ArrayHash(e) => v.ArrayValue? && forall i :: 0 <= i < |v.elements| ==> Accepts(e, v.elements[i])
    case MapHash(k, w) =>
      v.MapValue? && forall i :: 0 <= i < |v.entries| ==> Accepts(k, v.entries[i].key) && Accepts(w, v.entries[i].value)
    case RowHash(fs) => v.RowValue? && |v.fields| == |fs| && forall i :: 0 <= i < |fs| ==> Accepts(fs[i], v.fields[i])
  }

  // ---------------------------------------------------------------------
  // The hash, as functions
  // ---------------------------------------------------------------------

  /** The hash of one position: the null constant for a null, before any
      type-specific hashing; otherwise the fold of the children's hashes
      (each child itself hashed through Hash, so null children give the
      constant too), or the primitive hash. */
  function Hash(h: Hasher, v: Value, primitiveHash: (string, string) -> Long): Long
    requires Accepts(h, v)
    decreases v, 1
  {
    if v.Null? then NullHashCode
    else
      match h
      case PrimitiveHash(name) => primitiveHash(name, v.payload)
      case ArrayHash(e) => FoldHash(ElementHashes(e, v, primitiveHash))
      case MapHash(k, w) => FoldEntries(EntryHashes(k, w, v, primitiveHash))
      case RowHash(fs) => FoldHash(FieldHashes(fs, v, primitiveHash))
  }

  /** The hashes of an array's elements, in order. */
  function ElementHashes(e: Hasher, v: Value, primitiveHash: (string, string) -> Long): (r: seq<Long>)
    requires v.ArrayValue? && forall i :: 0 <= i < |v.elements| ==> Accepts(e, v.elements[i])
    ensures |r| == |v.elements|
    decreases v, 0
  {
    seq(|v.elements|, i requires 0 <= i < |v.elements| => Hash(e, v.elements[i], primitiveHash))
  }

  /** The key and value hashes of a map's entries, in order. */
  function EntryHashes(k: Hasher, w: Hasher, v: Value, primitiveHash: (string, string) -> Long): (r: seq<(Long, Long)>)
    requires v.MapValue?
    requires forall i :: 0 <= i < |v.entries| ==> Accepts(k, v.entries[i].key) && Accepts(w, v.entries[i].value)
    ensures |r| == |v.entries|
    decreases v, 0
  {
    seq(|v.entries|, i requires 0 <= i < |v.entries| =>
      (Hash(k, v.entries[i].key, primitiveHash), Hash(w, v.entries[i].value, primitiveHash)))
  }

  /** The hashes of a row's fields, field i by the i-th field hasher. */
  function FieldHashes(fs: seq<Hasher>, v: Value, primitiveHash: (string, string) -> Long): (r: seq<Long>)
    requires v.RowValue? && |v.fields| == |fs| && forall i :: 0 <= i < |fs| ==> Accepts(fs[i], v.fields[i])
    ensures |r| == |fs|
    decreases v, 0
  {
    seq(|fs|, i requires 0 <= i < |fs| => Hash(fs[i], v.fields[i], primitiveHash))
  }

  /** The fold over map entries: per entry, first the key, then the value. */
  function FoldEntries(pairs: seq<(Long, Long)>): Long
  {
    if pairs == [] then 0
    else
      var last := pairs[|pairs| - 1];
      Combine(Combine(FoldEntries(pairs[..|pairs| - 1]), last.0), last.1)
  }

  lemma FoldEntriesStep(pairs: seq<(Long, Long)>, i: int)
    requires 0 <= i < |pairs|
    ensures FoldEntries(pairs[..i + 1]) == Combine(Combine(FoldEntries(pairs[..i]), pairs[i].0), pairs[i].1)
  {
    assert pairs[..i + 1][..i] == pairs[..i];
  }

  /** Key and value hashes interleaved, in entry order. */
  function Interleave(pairs: seq<(Long, Long)>): (r: seq<Long>)
    ensures |r| == 2 * |pairs|
  {
    if pairs == [] then []
    else Interleave(pairs[..|pairs| - 1]) + [pairs[|pairs| - 1].0, pairs[|pairs| - 1].1]
  }

  // ---------------------------------------------------------------------
  // The hash, as the loops that compute it
  // ---------------------------------------------------------------------

  /** Hashes one position. */
  method HashPosition(h: Hasher, v: Value, primitiveHash: (string, string) -> Long) returns (r: Long)
    requires Accepts(h, v)
    ensures r == Hash(h, v, primitiveHash)
    decreases v, 1
  {
    if v.Null? {
      return NullHashCode;
    }
    match h
    case PrimitiveHash(name) => r := primitiveHash(name, v.payload);
    case ArrayHash(e) => r := ArrayHashLoop(e, v, primitiveHash);
    case MapHash(k, w) => r := MapHashLoop(k, w, v, primitiveHash);
    case RowHash(fs) => r := RowHashLoop(fs, v, primitiveHash);
  }

  method ArrayHashLoop(e: Hasher, v: Value, primitiveHash: (string, string) -> Long) returns (hash: Long)
    requires v.ArrayValue? && forall i :: 0 <= i < |v.elements| ==> Accepts(e, v.elements[i])
    ensures hash == FoldHash(ElementHashes(e, v, primitiveHash))
    decreases v, 0
  {
    ghost var hashes := ElementHashes(e, v, primitiveHash);
    hash := 0;
    var i := 0;
    while i < |v.elements|
      invariant 0 <= i <= |v.elements|
      invariant hash == FoldHash(hashes[..i])
    {
      var child := HashPosition(e, v.elements[i], primitiveHash);
      assert hashes[..i + 1][..i] == hashes[..i];
      hash := Combine(hash, child);
      i := i + 1;
    }
    assert hashes[..i] == hashes;
  }

  method MapHashLoop(k: Hasher, w: Hasher, v: Value, primitiveHash: (string, string) -> Long) returns (hash: Long)
    requires v.MapValue?
    requires forall i :: 0 <= i < |v.entries| ==> Accepts(k, v.entries[i].key) && Accepts(w, v.entries[i].value)
    ensures hash == FoldEntries(EntryHashes(k, w, v, primitiveHash))
    decreases v, 0
  {
    ghost var pairs := EntryHashes(k, w, v, primitiveHash);
    hash := 0;
    var i := 0;
    while i < |v.entries|
      invariant 0 <= i <= |v.entries|
      invariant hash == FoldEntries(pairs[..i])
    {
      var entry := v.entries[i];
      assert Accepts(k, entry.key) && Accepts(w, entry.value);
      var keyHash := HashPosition(k, entry.key, primitiveHash);
      hash := Combine(hash, keyHash);
      var valueHash := HashPosition(w, entry.value, primitiveHash);
      hash := Combine(hash, valueHash);
      assert hash == FoldEntries(pairs[..i + 1]) by {
        assert pairs[i] == (keyHash, valueHash);
        FoldEntriesStep(pairs, i);
      }
      i := i + 1;
    }
    assert pairs[..i] == pairs;
  }

  method RowHashLoop(fs: seq<Hasher>, v: Value, primitiveHash: (string, string) -> Long) returns (hash: Long)
    requires v.RowValue? && |v.fields| == |fs| && forall i :: 0 <= i < |fs| ==> Accepts(fs[i], v.fields[i])
    ensures hash == FoldHash(FieldHashes(fs, v, primitiveHash))
    decreases v, 0
  {
    ghost var hashes := FieldHashes(fs, v, primitiveHash);
    hash := 0;
    var i := 0;
    while i < |fs|
      invariant 0 <= i <= |fs|
      invariant hash == FoldHash(hashes[..i])
    {
      var child := HashPosition(fs[i], v.fields[i], primitiveHash);
      assert hashes[..i + 1][..i] == hashes[..i];
      hash := Combine(hash, child);
      i := i + 1;
    }
    assert hashes[..i] == hashes;
  }

  // ---------------------------------------------------------------------
  // Properties
  // ---------------------------------------------------------------------

  /** The hasher built for a type accepts every value of that type. */
  lemma {:induction false} CreatedHasherAccepts(t: SqlType, v: Value)
    requires HasType(v, t)
    ensures Accepts(CreateValidationHash(t), v)
    decreases v
  {
    if !v.Null? {
      match t
      case PrimitiveType(_) =>
      case ArrayType(e) =>
        forall i | 0 <= i < |v.elements| ensures Accepts(CreateValidationHash(e), v.elements[i]) {
          CreatedHasherAccepts(e, v.elements[i]);
        }
      case MapType(k, w) =>
        forall i | 0 <= i < |v.entries|
          ensures Accepts(CreateValidationHash(k), v.entries[i].key) && Accepts(CreateValidationHash(w), v.entries[i].value)
        {
          assert v.entries[i] in v.entries;
          CreatedHasherAccepts(k, v.entries[i].key);
          CreatedHasherAccepts(w, v.entries[i].value);
        }
      case RowType(fs) =>
        forall i | 0 <= i < |fs| ensures Accepts(CreateValidationHash(t).fieldHashes[i], v.fields[i]) {
          CreatedHasherAccepts(fs[i], v.fields[i]);
        }
    }
  }

  /** A null position hashes to the constant, whatever the hasher. */
  lemma NullHash(h: Hasher, primitiveHash: (string, string) -> Long)
    ensures Hash(h, Null, primitiveHash) == NullHashCode
  {
  }

  /** An empty array, an empty map and a row without fields hash to 0. */
  lemma EmptyCompositesHashToZero(e: Hasher, k: Hasher, w: Hasher, primitiveHash: (string, string) -> Long)
    ensures Hash(ArrayHash(e), ArrayValue([]), primitiveHash) == 0
    ensures Hash(MapHash(k, w), MapValue([]), primitiveHash) == 0
    ensures Hash(RowHash([]), RowValue([]), primitiveHash) == 0
  {
    assert ElementHashes(e, ArrayValue([]), primitiveHash) == [];
    assert EntryHashes(k, w, MapValue([]), primitiveHash) == [];
    assert FieldHashes([], RowValue([]), primitiveHash) == [];
  }

  /** Array hashing is a left fold in element order: appending an element
      combines the hash so far with the element's hash. */
  lemma ArrayHashAppend(e: Hasher, elements: seq<Value>, last: Value, primitiveHash: (string, string) -> Long)
    requires Accepts(ArrayHash(e), ArrayValue(elements + [last]))
    ensures Accepts(ArrayHash(e), ArrayValue(elements)) && Accepts(e, last)
    ensures Hash(ArrayHash(e), ArrayValue(elements + [last]), primitiveHash)
         == Combine(Hash(ArrayHash(e), ArrayValue(elements), primitiveHash), Hash(e, last, primitiveHash))
  {
    var longer := ArrayValue(elements + [last]);
    assert forall i :: 0 <= i < |elements| ==> longer.elements[i] == elements[i];
    assert longer.elements[|elements|] == last;
    var hs := ElementHashes(e, longer, primitiveHash);
    assert hs[..|elements|] == ElementHashes(e, ArrayValue(elements), primitiveHash);
  }

  /** Map hashing folds each entry in order, first the key, then the value. */
  lemma MapHashAppend(k: Hasher, w: Hasher, entries: seq<Entry>, last: Entry, primitiveHash: (string, string) -> Long)
    requires Accepts(MapHash(k, w), MapValue(entries + [last]))
    ensures Accepts(MapHash(k, w), MapValue(entries)) && Accepts(k, last.key) && Accepts(w, last.value)
    ensures Hash(MapHash(k, w), MapValue(entries + [last]), primitiveHash)
         == Combine(Combine(Hash(MapHash(k, w), MapValue(entries), primitiveHash), Hash(k, last.key, primitiveHash)),
                    Hash(w, last.value, primitiveHash))
  {
    var longer := MapValue(entries + [last]);
    assert forall i :: 0 <= i < |entries| ==> longer.entries[i] == entries[i];
    assert longer.entries[|entries|] == last;
    var ps := EntryHashes(k, w, longer, primitiveHash);
    assert ps[..|entries|] == EntryHashes(k, w, MapValue(entries), primitiveHash);
  }

  /** The map fold is the plain fold over keys and values interleaved. */
  lemma {:induction false} FoldEntriesInterleaved(pairs: seq<(Long, Long)>)
    ensures FoldEntries(pairs) == FoldHash(Interleave(pairs))
  {
    if pairs != [] {
      var init, last := pairs[..|pairs| - 1], pairs[|pairs| - 1];
      FoldEntriesInterleaved(init);
      var s := Interleave(pairs);
      assert s == Interleave(init) + [last.0, last.1];
      assert s[..|s| - 1] == Interleave(init) + [last.0];
      assert s[..|s| - 1][..|s| - 2] == Interleave(init);
    }
  }

  /** Row hashing folds field i with the i-th field hasher: appending a field
      and its hasher combines the hash so far with that field's hash. */
  lemma RowHashAppend(fs: seq<Hasher>, f: Hasher, fields: seq<Value>, last: Value, primitiveHash: (string, string) -> Long)
    requires Accepts(RowHash(fs + [f]), RowValue(fields + [last]))
    ensures Accepts(RowHash(fs), RowValue(fields)) && Accepts(f, last)
    ensures Hash(RowHash(fs + [f]), RowValue(fields + [last]), primitiveHash)
         == Combine(Hash(RowHash(fs), RowValue(fields), primitiveHash), Hash(f, last, primitiveHash))
  {
    var longer := RowValue(fields + [last]);
    assert forall i :: 0 <= i < |fields| ==> longer.fields[i] == fields[i] && (fs + [f])[i] == fs[i];
    assert longer.fields[|fields|] == last && (fs + [f])[|fields|] == f;
    var hs := FieldHashes(fs + [f], longer, primitiveHash);
    assert hs[..|fields|] == FieldHashes(fs, RowValue(fields), primitiveHash);
  }

  /** A null element contributes the null constant, whatever its hasher. */
  lemma NullElementContributesConstant(e: Hasher, v: Value, i: int, primitiveHash: (string, string) -> Long)
    requires v.ArrayValue? && forall j :: 0 <= j < |v.elements| ==> Accepts(e, v.elements[j])
    requires 0 <= i < |v.elements| && v.elements[i].Null?
    ensures ElementHashes(e, v, primitiveHash)[i] == NullHashCode
  {
  }

  /** A concrete case: a one-element array holding null hashes to the null
      constant itself (31 * 0 + constant). */
  lemma ArrayOfOneNull(e: Hasher, primitiveHash: (string, string) -> Long)
    ensures Hash(ArrayHash(e), ArrayValue([Null]), primitiveHash) == NullHashCode
  {
    var hs := ElementHashes(e, ArrayValue([Null]), primitiveHash);
    assert hs == [NullHashCode];
    assert hs[..0] == [];
    assert FoldHash(hs) == Combine(FoldHash([]), NullHashCode);
    assert Combine(0, NullHashCode) == Wrap(NullHashCode);
  }
}
