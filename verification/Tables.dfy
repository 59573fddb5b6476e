/**
 The growable pointer list of the writer, its records, and the sorted tables it
 keeps: attributes in the order in which start tags print them, and prefixes.
 */
module Tables {
  import opened Bytes

  // ---------- Pointer lists ----------

  function Inserted<T>(s: seq<T>, x: T, at: nat): seq<T>
    requires at <= |s|
  {
    s[..at] + [x] + s[at..]
  }

  class PointerList<T(0)> {
    var count: nat
    var space: nat
    var pointers: array<T>

    ghost predicate Valid()
      reads this
    {
      && count <= space == pointers.Length
      && 0 < space
    }

    ghost function Contents(): seq<T>
      reads this, pointers
      requires Valid()
    {
      pointers[..count]
    }

    constructor ()
      ensures Valid() && fresh(pointers) && Contents() == []
    {
      count := 0;
      space := 10;
      pointers := new T[10];
    }

    /** Make room for one more. */
    method CheckExpand()
      requires Valid()
      modifies this
      ensures Valid() && count == old(count) && count < space
      ensures pointers == old(pointers) || fresh(pointers)
      ensures Contents() == old(Contents())
    {
      if count < space {
        return;
      }
      space := space * 2;
      var newlist := new T[space];
      for i := 0 to count
        modifies newlist
        invariant newlist[..i] == pointers[..i]
      {
        newlist[i] := pointers[i];
      }
      pointers := newlist;
    }

    method Append(pointer: T)
      requires Valid()
      modifies this, pointers
      ensures Valid() && (pointers == old(pointers) || fresh(pointers))
      ensures Contents() == old(Contents()) + [pointer]
    {
      CheckExpand();
      pointers[count] := pointer;
      count := count + 1;
    }

    /** A pointer in the middle; those behind it move one place, within the same array. */
    method Insert(pointer: T, at: nat)
      requires Valid() && at <= count
      modifies this, pointers
      ensures Valid() && (pointers == old(pointers) || fresh(pointers))
      ensures Contents() == Inserted(old(Contents()), pointer, at)
    {
      CheckExpand();
      ghost var was := pointers[..count];
      var i := count;
      while i > at
        modifies pointers
        invariant at <= i <= count
        invariant forall k :: 0 <= k < i ==> pointers[k] == was[k]
        invariant forall k :: i < k <= count ==> pointers[k] == was[k - 1]
      {
        pointers[i] := pointers[i - 1];
        i := i - 1;
      }
      count := count + 1;
      pointers[at] := pointer;
    }
  }

  // ---------- Records ----------

  datatype AttrType = NsDecl | Naked | Prefixed

  class Namespace {
    const name: CString
    var declCount: int
    var baroque: bool
    /** Declares the prefix now in effect. */
    var declaration: Attribute?
    /** Declares the default prefix. */
    var defaultDecl: Attribute?

    constructor (name: CString)
      ensures this.name == name
      ensures declCount == 0 && !baroque && declaration == null && defaultDecl == null
    {
      this.name := name;
      declCount, baroque, declaration, defaultDecl := 0, false, null, null;
    }
  }

  class Attribute {
    const name: bytes
    const ns: Namespace?
    const atype: AttrType
    /** The text of the value collector. */
    var value: bytes
    /** Provided for the current element? */
    var provided: bool

    constructor (ns: Namespace?, name: bytes, atype: AttrType, value: bytes)
      ensures this.name == name && this.ns == ns && this.atype == atype
      ensures this.value == value && !provided
    {
      this.name, this.ns, this.atype := name, ns, atype;
      this.value, provided := value, false;
    }
  }

  class Element {
    const kind: bytes
    const ns: Namespace?

    constructor (ns: Namespace?, kind: bytes)
      ensures this.kind == kind && this.ns == ns
    {
      this.kind, this.ns := kind, ns;
    }
  }

  const XMLNS: bytes := [0x78, 0x6d, 0x6c, 0x6e, 0x73]              // xmlns
  const XMLNS_COLON: bytes := [0x78, 0x6d, 0x6c, 0x6e, 0x73, 0x3a]  // xmlns:

  /** What the table of attributes is searched for. */
  datatype Wanted = Wanted(atype: AttrType, ns: Namespace?, name: bytes)

  function WantedOf(a: Attribute): Wanted {
    Wanted(a.atype, a.ns, a.name)
  }

  /** The class an attribute gets; any name that merely begins with xmlns counts as a declaration. */
  function TypeOf(ns: Namespace?, name: bytes): AttrType {
    if ns != null then Prefixed else if XMLNS <= name then NsDecl else Naked
  }

  // ---------- Order of attributes ----------

  /** The comparison of the source. */
  function OrderAttributes(a1: Wanted, a2: Wanted): int {
    if a1.atype == a2.atype then
      if a1.atype == Prefixed && a1.ns != a2.ns then
        (if a1.ns == null || a2.ns == null then 0 else Compare(a1.ns.name, a2.ns.name))
      else Compare(a1.name, a2.name)
    else if a1.atype == NsDecl then -1
    else if a1.atype == Naked then
      if a2.atype == NsDecl then 1 else -1
    else 1
  }

  /** Class, namespace name and local name: what the order is about. */
  datatype Key = Key(atype: AttrType, uri: bytes, name: bytes)

  function KeyOf(w: Wanted): Key {
    Key(w.atype, if w.atype == Prefixed && w.ns != null then w.ns.name else [], w.name)
  }

  function Rank(t: AttrType): nat {
    match t
    case NsDecl => 0
    case Naked => 1
    case Prefixed => 2
  }

  /** Lexicographic: first the class, then the namespace name, then the local name. */
  function KeyOrder(k1: Key, k2: Key): (r: int)
    ensures r == 0 <==> k1 == k2
  {
    if k1.atype != k2.atype then Rank(k1.atype) - Rank(k2.atype)
    else if k1.uri != k2.uri then Compare(k1.uri, k2.uri)
    else Compare(k1.name, k2.name)
  }

  lemma KeyOrderAntisymmetric(k1: Key, k2: Key)
    ensures KeyOrder(k1, k2) == -KeyOrder(k2, k1)
  {
    CompareAntisymmetric(k1.uri, k2.uri);
    CompareAntisymmetric(k1.name, k2.name);
  }

  lemma KeyOrderTransitive(k1: Key, k2: Key, k3: Key)
    requires KeyOrder(k1, k2) <= 0 && KeyOrder(k2, k3) <= 0
    ensures KeyOrder(k1, k3) <= 0
    ensures KeyOrder(k1, k2) < 0 || KeyOrder(k2, k3) < 0 ==> KeyOrder(k1, k3) < 0
  {
    if k1.atype == k2.atype == k3.atype {
      if Compare(k1.uri, k2.uri) <= 0 && Compare(k2.uri, k3.uri) <= 0 {
        CompareTransitive(k1.uri, k2.uri, k3.uri);
      }
      if k1.uri == k2.uri == k3.uri {
        CompareTransitive(k1.name, k2.name, k3.name);
      }
    }
  }

  /** Namespaces of a writer are interned: the record determines the name and the other way round. */
  predicate Interned(w1: Wanted, w2: Wanted) {
    && (w1.atype == Prefixed <==> w1.ns != null)
    && (w2.atype == Prefixed <==> w2.ns != null)
    && (w1.ns != null && w2.ns != null && w1.ns.name == w2.ns.name ==> w1.ns == w2.ns)
  }

  /** Comparing records is comparing keys. */
  lemma OrderIsKeyOrder(w1: Wanted, w2: Wanted)
    requires Interned(w1, w2)
    ensures var r := OrderAttributes(w1, w2);
            var k := KeyOrder(KeyOf(w1), KeyOf(w2));
            (r < 0 <==> k < 0) && (r == 0 <==> k == 0)
  {
  }

  // ---------- Canonical order ----------

  /** A namespace declaration proper, as opposed to a name that merely begins with xmlns. */
  predicate IsDeclarationName(name: bytes) {
    name == XMLNS || XMLNS_COLON < name
  }

  /** The prefix a declaration declares; empty for the default namespace. */
  function DeclaredPrefix(name: bytes): bytes
    requires IsDeclarationName(name)
  {
    if name == XMLNS then [] else name[|XMLNS_COLON|..]
  }

  /**
   Section 2.2 of Canonical XML 1.0: declarations by prefix, the default one first, then
   attributes by namespace name, those in no namespace first, then by local name.
   */
  predicate CanonicallyBefore(k1: Key, k2: Key) {
    var d1, d2 := k1.uri == [] && IsDeclarationName(k1.name), k2.uri == [] && IsDeclarationName(k2.name);
    if d1 && d2 then Compare(DeclaredPrefix(k1.name), DeclaredPrefix(k2.name)) < 0
    else if d1 || d2 then d1
    else Compare(k1.uri, k2.uri) < 0 || (k1.uri == k2.uri && Compare(k1.name, k2.name) < 0)
  }

  /** Keys as the writer makes them. */
  predicate IsKey(k: Key) {
    && (k.atype == Prefixed <==> k.uri != [])
    && (k.atype == NsDecl <==> k.uri == [] && XMLNS <= k.name)
  }

  /** Classed as a declaration for its first five octets alone. */
  predicate IsMisclassed(k: Key) {
    k.atype == NsDecl && !IsDeclarationName(k.name)
  }

  lemma DefaultFirst(name: bytes)
    requires XMLNS_COLON < name
    ensures Compare(XMLNS, name) < 0 < Compare(name, XMLNS)
    ensures Compare([], DeclaredPrefix(name)) < 0 < Compare(DeclaredPrefix(name), [])
  {
    assert XMLNS + [] == XMLNS && name == XMLNS + name[5..];
    CompareCommonPrefix(XMLNS, [], name[5..]);
    CompareCommonPrefix(XMLNS, name[5..], []);
  }

  /** Apart from misclassed names the writer's order is the canonical one. */
  lemma KeyOrderIsCanonical(k1: Key, k2: Key)
    requires IsKey(k1) && IsKey(k2) && !IsMisclassed(k1) && !IsMisclassed(k2)
    ensures KeyOrder(k1, k2) < 0 <==> CanonicallyBefore(k1, k2)
  {
    var n1, n2 := k1.name, k2.name;
    if k1.atype == NsDecl && k2.atype == NsDecl {
      if XMLNS_COLON <= n1 && XMLNS_COLON <= n2 {
        assert n1 == XMLNS_COLON + n1[6..] && n2 == XMLNS_COLON + n2[6..];
        CompareCommonPrefix(XMLNS_COLON, n1[6..], n2[6..]);
      } else {
        if XMLNS_COLON < n1 {
          DefaultFirst(n1);
        }
        if XMLNS_COLON < n2 {
          DefaultFirst(n2);
        }
      }
    }
  }

  lemma ColonExtends(name: bytes)
    ensures XMLNS_COLON <= name ==> XMLNS <= name
  {
    if XMLNS_COLON <= name {
      assert name[..5] == XMLNS_COLON[..5] == XMLNS;
    }
  }

  /**
   A misclassed name that comes too early: before a plain one with a smaller name, or before a
   declaration that it is smaller than.
   */
  predicate IsMisplaced(k1: Key, k2: Key) {
    IsMisclassed(k1) &&
    if k2.atype == Naked then Compare(k2.name, k1.name) < 0
    else k2.atype == NsDecl && IsDeclarationName(k2.name) && Compare(k1.name, k2.name) < 0
  }

  /** The exact failure: two keys are in the wrong order if and only if one of them is misplaced. */
  lemma OrderIsCanonicalIff(k1: Key, k2: Key)
    requires IsKey(k1) && IsKey(k2) && k1 != k2
    ensures (KeyOrder(k1, k2) < 0 <==> CanonicallyBefore(k1, k2)) <==> !IsMisplaced(k1, k2) && !IsMisplaced(k2, k1)
  {
    CompareAntisymmetric(k1.name, k2.name);
    if !IsMisclassed(k1) && !IsMisclassed(k2) {
      KeyOrderIsCanonical(k1, k2);
    } else {
      ColonExtends(k1.name);
      ColonExtends(k2.name);
    }
  }

  /** A misclassed attribute is put before every plain one, which is right only if its name comes first. */
  lemma MisclassedOrder(k1: Key, k2: Key)
    requires IsKey(k1) && IsKey(k2) && IsMisclassed(k1) && k2.atype == Naked
    ensures KeyOrder(k1, k2) < 0
    ensures CanonicallyBefore(k1, k2) <==> Compare(k1.name, k2.name) < 0
  {
    ColonExtends(k2.name);
  }

  /** With concrete names: xmlnsx is printed before a, canonically it comes after it. */
  lemma MisclassedExample()
    ensures var k1, k2 := Key(NsDecl, [], XMLNS + [0x78]), Key(Naked, [], [0x61]);
            && IsKey(k1) && IsKey(k2)
            && KeyOrder(k1, k2) < 0 && !CanonicallyBefore(k1, k2) && CanonicallyBefore(k2, k1)
  {
    var k1, k2 := Key(NsDecl, [], XMLNS + [0x78]), Key(Naked, [], [0x61]);
    assert !IsDeclarationName(k1.name) by {
      assert k1.name[5] == 0x78 && XMLNS_COLON[5] == 0x3a;
    }
  }

  /** And xmlns- is printed before xmlns:b, a declaration. */
  lemma MisclassedBeforeDeclaration()
    ensures var k1, k2 := Key(NsDecl, [], XMLNS + [0x2d]), Key(NsDecl, [], XMLNS_COLON + [0x62]);
            && IsKey(k1) && IsKey(k2)
            && KeyOrder(k1, k2) < 0 && !CanonicallyBefore(k1, k2) && CanonicallyBefore(k2, k1)
  {
    var k1, k2 := Key(NsDecl, [], XMLNS + [0x2d]), Key(NsDecl, [], XMLNS_COLON + [0x62]);
    ColonExtends(k2.name);
    assert !IsDeclarationName(k1.name) by {
      assert k1.name[5] == 0x2d && XMLNS_COLON[5] == 0x3a;
    }
    assert k2.name == XMLNS + [0x3a, 0x62];
    CompareCommonPrefix(XMLNS, [0x2d], [0x3a, 0x62]);
  }

  // ---------- Sorted tables ----------

  function Keys(aa: seq<Attribute>): (ks: seq<Key>)
    ensures |ks| == |aa|
    ensures forall i :: 0 <= i < |aa| ==> ks[i] == KeyOf(WantedOf(aa[i]))
  {
    seq(|aa|, i requires 0 <= i < |aa| => KeyOf(WantedOf(aa[i])))
  }

  predicate SortedKeys(ks: seq<Key>) {
    forall i, j :: 0 <= i < j < |ks| ==> KeyOrder(ks[i], ks[j]) < 0
  }

  predicate SortedStrings(pp: seq<bytes>) {
    forall i, j :: 0 <= i < j < |pp| ==> Compare(pp[i], pp[j]) < 0
  }

  /** Insertion where everything before is smaller and everything after is larger. */
  lemma InsertKeepsKeysSorted(ks: seq<Key>, k: Key, at: nat)
    requires SortedKeys(ks) && at <= |ks|
    requires forall i :: 0 <= i < at ==> KeyOrder(ks[i], k) < 0
    requires forall i :: at <= i < |ks| ==> KeyOrder(k, ks[i]) < 0
    ensures SortedKeys(Inserted(ks, k, at))
  {
    hide KeyOrder;
    var r := Inserted(ks, k, at);
    assert forall i :: 0 <= i < |r| ==> r[i] == if i < at then ks[i] else if i == at then k else ks[i - 1];
  }

  lemma InsertKeepsStringsSorted(pp: seq<bytes>, p: bytes, at: nat)
    requires SortedStrings(pp) && at <= |pp|
    requires forall i :: 0 <= i < at ==> Compare(pp[i], p) < 0
    requires forall i :: at <= i < |pp| ==> Compare(p, pp[i]) < 0
    ensures SortedStrings(Inserted(pp, p, at))
  {
    hide Compare;
    var r := Inserted(pp, p, at);
    assert forall i :: 0 <= i < |r| ==> r[i] == if i < at then pp[i] else if i == at then p else pp[i - 1];
  }

  /** The binary search of storePrefix. */
  method SearchPrefix(pp: seq<bytes>, prefix: bytes) returns (low: int, high: nat)
    requires SortedStrings(pp)
    ensures low + 1 == high <= |pp|
    ensures forall i :: 0 <= i < high ==> Compare(pp[i], prefix) <= 0
    ensures forall i :: high <= i < |pp| ==> Compare(prefix, pp[i]) < 0
    ensures prefix in pp <==> 0 <= low && prefix == pp[low]
  {
    high, low := |pp|, -1;
    while high - low > 1
      invariant -1 <= low < high <= |pp|
      invariant forall i :: 0 <= i <= low ==> Compare(pp[i], prefix) <= 0
      invariant forall i :: high <= i < |pp| ==> Compare(prefix, pp[i]) < 0
    {
      var probe := (high + low) / 2;
      if Compare(prefix, pp[probe]) < 0 {
        forall i | probe < i < |pp|
          ensures Compare(prefix, pp[i]) < 0
        {
          CompareTransitive(prefix, pp[probe], pp[i]);
        }
        high := probe;
      } else {
        CompareAntisymmetric(prefix, pp[probe]);
        forall i | 0 <= i < probe
          ensures Compare(pp[i], prefix) <= 0
        {
          CompareTransitive(pp[i], pp[probe], prefix);
        }
        low := probe;
      }
    }
    if prefix in pp {
      var i :| 0 <= i < |pp| && pp[i] == prefix;
      if i < low {
        CompareTransitive(prefix, pp[low], prefix);
      }
    }
  }

  /** The table of attributes may be searched for `w`. */
  predicate Searchable(aa: seq<Attribute>, w: Wanted) {
    && SortedKeys(Keys(aa))
    && forall i :: 0 <= i < |aa| ==> Interned(w, WantedOf(aa[i]))
  }

  /** The binary search of declareAttribute. */
  method SearchAttribute(aa: seq<Attribute>, w: Wanted) returns (low: int, high: nat)
    requires Searchable(aa, w)
    ensures low + 1 == high <= |aa|
    ensures forall i :: 0 <= i < high ==> KeyOrder(Keys(aa)[i], KeyOf(w)) <= 0
    ensures forall i :: high <= i < |aa| ==> KeyOrder(KeyOf(w), Keys(aa)[i]) < 0
    ensures KeyOf(w) in Keys(aa) <==> 0 <= low && OrderAttributes(w, WantedOf(aa[low])) == 0
    ensures KeyOf(w) in Keys(aa) ==> WantedOf(aa[low]) == w
  {
    ghost var ks, k := Keys(aa), KeyOf(w);
    high, low := |aa|, -1;
    while high - low > 1
      invariant -1 <= low < high <= |aa|
      invariant forall i :: 0 <= i <= low ==> KeyOrder(ks[i], k) <= 0
      invariant forall i :: high <= i < |aa| ==> KeyOrder(k, ks[i]) < 0
    {
      var probe := (high + low) / 2;
      OrderIsKeyOrder(w, WantedOf(aa[probe]));
      hide KeyOrder, OrderAttributes, KeyOf;
      if OrderAttributes(w, WantedOf(aa[probe])) < 0 {
        forall i | probe < i < |aa|
          ensures KeyOrder(k, ks[i]) < 0
        {
          KeyOrderTransitive(k, ks[probe], ks[i]);
        }
        high := probe;
      } else {
        KeyOrderAntisymmetric(k, ks[probe]);
        forall i | 0 <= i < probe
          ensures KeyOrder(ks[i], k) <= 0
        {
          KeyOrderTransitive(ks[i], ks[probe], k);
        }
        low := probe;
      }
    }
    FoundOrNot(aa, w, low);
  }

  lemma FoundOrNot(aa: seq<Attribute>, w: Wanted, low: int)
    requires Searchable(aa, w) && -1 <= low < |aa|
    requires forall i :: 0 <= i <= low ==> KeyOrder(Keys(aa)[i], KeyOf(w)) <= 0
    requires forall i :: low < i < |aa| ==> KeyOrder(KeyOf(w), Keys(aa)[i]) < 0
    ensures KeyOf(w) in Keys(aa) <==> 0 <= low && OrderAttributes(w, WantedOf(aa[low])) == 0
    ensures KeyOf(w) in Keys(aa) ==> WantedOf(aa[low]) == w
  {
    var ks, k := Keys(aa), KeyOf(w);
    if 0 <= low {
      OrderIsKeyOrder(w, WantedOf(aa[low]));
    }
    if k in ks {
      var i :| 0 <= i < |ks| && ks[i] == k;
      if i < low {
        KeyOrderTransitive(k, ks[low], k);
      }
    }
  }
}
