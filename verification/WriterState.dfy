/**
 What an XML writer keeps consistent: its tables, its stack, and the fields cached in
 a namespace, which shadow the declarations on the stack.
 */
module WriterState {
  import opened Options
  import opened Bytes
  import opened StatusCodes
  import opened Utf8
  import opened Escape
  import opened Tables
  import opened ElementStack
  import opened Events

  datatype Sequence = NoDocument | BeforeRoot | AfterRoot | InStartTag | InAttributes | InContent

  // ---------- Tables of a writer ----------

  datatype Registry = Registry(
    namespaces: seq<Namespace>,
    elements: seq<Element>,
    attributes: seq<Attribute>,
    prefixes: seq<bytes>,
    xmlns: Attribute)

  /** An attribute that declares a prefix or the default namespace. */
  predicate IsDecl(d: Attribute, t: Registry) {
    && d in t.attributes
    && d.ns == null
    && (d == t.xmlns || XMLNS_COLON < d.name)
  }

  predicate IsXml(ns: Namespace) {
    ns.name == XML_URI
  }

  predicate NamespacesOk(nn: seq<Namespace>) {
    && (forall i, j :: 0 <= i < j < |nn| ==> nn[i].name != nn[j].name)
    && (forall i :: 0 <= i < |nn| ==> nn[i].name != [] && IsText(nn[i].name))
    && nn != [] && IsXml(nn[0])
  }

  predicate AttributeOk(a: Attribute, nn: seq<Namespace>) {
    && a.atype == TypeOf(a.ns, a.name)
    && (a.ns != null ==> a.ns in nn)
  }

  predicate RegistryOk(t: Registry) {
    && NamespacesOk(t.namespaces)
    && (forall e :: e in t.elements && e.ns != null ==> e.ns in t.namespaces)
    && (forall a :: a in t.attributes ==> AttributeOk(a, t.namespaces))
    && SortedKeys(Keys(t.attributes))
    && SortedStrings(t.prefixes)
    && (forall p :: p in t.prefixes ==> XMLNS_COLON < p)
    && t.xmlns in t.attributes && t.xmlns.name == XMLNS && t.xmlns.ns == null
  }

  /** `t'` knows everything that `t` knows. */
  predicate Grows(t: Registry, t': Registry) {
    && (forall ns :: ns in t.namespaces ==> ns in t'.namespaces)
    && (forall e :: e in t.elements ==> e in t'.elements)
    && (forall a :: a in t.attributes ==> a in t'.attributes)
    && (forall p :: p in t.prefixes ==> p in t'.prefixes)
    && t.xmlns == t'.xmlns
  }

  lemma InsertedMembers<T>(s: seq<T>, x: T, at: nat)
    requires at <= |s|
    ensures forall y :: y in Inserted(s, x, at) <==> y == x || y in s
  {
    assert s == s[..at] + s[at..];
  }

  lemma KeysInserted(aa: seq<Attribute>, a: Attribute, at: nat)
    requires at <= |aa|
    ensures Keys(Inserted(aa, a, at)) == Inserted(Keys(aa), KeyOf(WantedOf(a)), at)
  {
    hide KeyOf, WantedOf;
  }

  /** Inserting a new attribute at its place keeps the table sorted. */
  lemma AttributeInserted(t: Registry, a: Attribute, at: nat)
    requires RegistryOk(t) && AttributeOk(a, t.namespaces) && at <= |t.attributes|
    requires KeyOf(WantedOf(a)) !in Keys(t.attributes)
    requires forall i :: 0 <= i < at ==> KeyOrder(Keys(t.attributes)[i], KeyOf(WantedOf(a))) <= 0
    requires forall i :: at <= i < |t.attributes| ==> KeyOrder(KeyOf(WantedOf(a)), Keys(t.attributes)[i]) < 0
    ensures var t' := t.(attributes := Inserted(t.attributes, a, at)); RegistryOk(t') && Grows(t, t')
  {
    hide KeyOrder, KeyOf, WantedOf, TypeOf, SortedStrings, NamespacesOk;
    var ks, k := Keys(t.attributes), KeyOf(WantedOf(a));
    forall i | 0 <= i < at
      ensures KeyOrder(ks[i], k) < 0
    {
      assert ks[i] != k;
      assert KeyOrder(ks[i], k) != 0;
    }
    InsertedMembers(t.attributes, a, at);
    KeysInserted(t.attributes, a, at);
    InsertKeepsKeysSorted(ks, k, at);
  }

  /** The table of attributes can be searched for anything whose namespace the writer knows. */
  lemma RegistryIsSearchable(t: Registry, ns: Namespace?, name: bytes)
    requires RegistryOk(t) && (ns != null ==> ns in t.namespaces)
    ensures Searchable(t.attributes, Wanted(TypeOf(ns, name), ns, name))
  {
    var w := Wanted(TypeOf(ns, name), ns, name);
    forall i | 0 <= i < |t.attributes|
      ensures Interned(w, WantedOf(t.attributes[i]))
    {
      assert AttributeOk(t.attributes[i], t.namespaces);
    }
  }

  lemma GrowsReflexive(t: Registry)
    ensures Grows(t, t)
  {
  }

  lemma GrowsTransitive(t: Registry, t': Registry, t'': Registry)
    requires Grows(t, t') && Grows(t', t'')
    ensures Grows(t, t'')
  {
  }

  lemma IsDeclGrows(d: Attribute, t: Registry, t': Registry)
    requires IsDecl(d, t) && Grows(t, t')
    ensures IsDecl(d, t')
  {
  }

  // ---------- Frames and namespaces of a writer ----------

  predicate BindingOk(b: Binding, t: Registry) {
    && IsDecl(b.decl, t)
    && (b.ns == null ==> b.decl == t.xmlns)
    && (b.ns != null ==> b.ns in t.namespaces)
  }

  predicate FramesOk(frames: seq<Frame>, t: Registry) {
    && (forall f :: f in frames ==> f.element in t.elements)
    && (forall b :: b in AllBindings(frames) ==> BindingOk(b, t))
  }

  lemma FramesOkGrows(frames: seq<Frame>, t: Registry, t': Registry)
    requires FramesOk(frames, t) && Grows(t, t')
    ensures FramesOk(frames, t')
  {
    forall b | b in AllBindings(frames)
      ensures BindingOk(b, t')
    {
      assert BindingOk(b, t);
    }
  }

  lemma FramesOkPushFrame(frames: seq<Frame>, e: Element, t: Registry)
    requires FramesOk(frames, t) && e in t.elements
    ensures FramesOk(frames + [Frame(e, [])], t)
  {
    AllBindingsPushFrame(frames, e);
  }

  lemma FramesOkPushBinding(frames: seq<Frame>, b: Binding, t: Registry)
    requires FramesOk(frames, t) && frames != [] && BindingOk(b, t)
    ensures FramesOk(PushBinding(frames, b), t)
  {
    AllBindingsPushBinding(frames, b);
  }

  lemma FramesOkDrop(frames: seq<Frame>, t: Registry)
    requires FramesOk(frames, t) && frames != []
    ensures Top(frames).bindings == [] ==> FramesOk(Below(frames), t)
    ensures Top(frames).bindings != [] ==> FramesOk(DropBinding(frames), t)
  {
    AllBindingsDrop(frames);
  }

  /** Declarations of a namespace that are not on the stack: one for the pre-wired xml namespace. */
  function PreWired(ns: Namespace): nat {
    if IsXml(ns) then 1 else 0
  }

  /** The default prefix of a namespace is interned. */
  ghost predicate HasDefault(ns: Namespace, t: Registry)
    reads ns
  {
    && ns.defaultDecl != null
    && IsDecl(ns.defaultDecl, t)
    && (ns.defaultDecl == t.xmlns || ns.defaultDecl.name in t.prefixes)
  }

  /** No two namespaces have the same default prefix. */
  ghost predicate DefaultsDiffer(nn: seq<Namespace>)
    reads nn`defaultDecl
  {
    forall m, n :: m in nn && n in nn && m != n && m.defaultDecl != null ==> m.defaultDecl != n.defaultDecl
  }

  /** Cached fields of a namespace that agree with the declarations `bs` on the stack. */
  predicate CachesOk(
    ns: Namespace, declaration: Attribute?, declCount: int, baroque: bool, bs: seq<Binding>, t: Registry)
  {
    && (declaration != null ==> IsDecl(declaration, t))
    && declCount == PreWired(ns) + Count(bs, ns)
    && (Count(bs, ns) > 0 ==> declaration == Innermost(bs, ns).value)
    && (!baroque ==> declCount <= 1)
    && (IsXml(ns) ==> declaration != null)
    && (IsXml(ns) && !baroque ==> declaration.name == XMLNS_XML)
  }

  ghost predicate NamespaceOk(ns: Namespace, bs: seq<Binding>, t: Registry)
    reads ns
  {
    && HasDefault(ns, t)
    && (!ns.baroque && (Count(bs, ns) > 0 || IsXml(ns)) ==> ns.declaration == ns.defaultDecl)
    && CachesOk(ns, ns.declaration, ns.declCount, ns.baroque, bs, t)
  }

  /** Every element in a namespace has a declaration of it in effect, its own or an outer one. */
  predicate Covered(frames: seq<Frame>) {
    frames != [] ==>
      && (var ns := Top(frames).element.ns; ns != null ==> Count(AllBindings(frames), ns) > 0 || IsXml(ns))
      && Covered(Below(frames))
  }

  predicate SequenceOk(sequence: Sequence, frames: seq<Frame>, nowStarting: Element?) {
    match sequence
    case NoDocument | BeforeRoot | AfterRoot => frames == []
    case InContent => frames != [] && Covered(frames)
    case InStartTag | InAttributes =>
      frames != [] && Covered(Below(frames)) && nowStarting == Top(frames).element
  }

  lemma NamespaceOkGrows(ns: Namespace, bs: seq<Binding>, t: Registry, t': Registry)
    requires Grows(t, t') && NamespaceOk(ns, bs, t)
    ensures NamespaceOk(ns, bs, t')
  {
    hide Count, ElementStack.Innermost;
    IsDeclGrows(ns.defaultDecl, t, t');
    if ns.declaration != null {
      IsDeclGrows(ns.declaration, t, t');
    }
  }

  lemma NamespacesOkGrow(nn: seq<Namespace>, bs: seq<Binding>, t: Registry, t': Registry)
    requires Grows(t, t')
    requires forall ns :: ns in nn ==> NamespaceOk(ns, bs, t)
    ensures forall ns :: ns in nn ==> NamespaceOk(ns, bs, t')
  {
    forall ns | ns in nn
      ensures NamespaceOk(ns, bs, t')
    {
      NamespaceOkGrows(ns, bs, t, t');
    }
  }

  /** Declaring a namespace: for the namespace itself. */
  lemma CachesOkPush(
    ns: Namespace, d: Attribute?, n: int, baroque: bool, decl: Attribute, bs: seq<Binding>, t: Registry)
    requires CachesOk(ns, d, n, baroque, bs, t) && IsDecl(decl, t) && (baroque || n == 0)
    ensures CachesOk(ns, decl, n + 1, baroque, bs + [Binding(ns, decl)], t)
  {
    hide IsDecl;
    InnermostPush(bs, Binding(ns, decl), ns);
  }

  /** Declaring a namespace, or none: for every other one. */
  lemma CachesOkPushOther(
    ns: Namespace, d: Attribute?, n: int, baroque: bool, b: Binding, bs: seq<Binding>, t: Registry)
    requires b.ns != ns
    ensures CachesOk(ns, d, n, baroque, bs + [b], t) <==> CachesOk(ns, d, n, baroque, bs, t)
  {
    hide IsDecl;
    InnermostPush(bs, b, ns);
  }

  /** Undoing a declaration: for the namespace itself. */
  lemma CachesOkPop(
    ns: Namespace, d: Attribute?, n: int, baroque: bool, decl: Attribute, bs: seq<Binding>, t: Registry)
    requires CachesOk(ns, d, n, baroque, bs + [Binding(ns, decl)], t)
    ensures var d' := if baroque && Innermost(bs, ns).Some? then Innermost(bs, ns).value else d;
            (d' != null ==> IsDecl(d', t)) ==> CachesOk(ns, d', n - 1, baroque && n - 1 != 0, bs, t)
  {
    hide IsDecl;
    InnermostPush(bs, Binding(ns, decl), ns);
  }

  // ---------- Names ----------

  datatype CharProperties = CharProperties(letters: set<int>, nameChars: set<int>)

  /** The rest of a name. */
  predicate IsNameRest(s: bytes, props: CharProperties) {
    s == [] || (
      && HasChar(s)
      && var n := Length(s[0]);
      && Scalar(s[..n]) in props.nameChars
      && IsNameRest(s[n..], props))
  }

  predicate IsName(s: bytes, props: CharProperties) {
    s != [] && HasChar(s) &&
    var n := Length(s[0]);
    var c := Scalar(s[..n]);
    && (c in props.letters || c == 0x3a || c == 0x5f)
    && IsNameRest(s[n..], props)
  }

  method CheckName(name: CString, props: CharProperties) returns (r: Status)
    ensures r.Success? <==> IsName(name, props)
    ensures !r.Success? ==> r == BadName || r == BadUtf8
  {
    if name == [] {
      return BadName;
    }
    assert name[0..] == name;
    var c, p := NextUnicodeChar(name, 0);
    if c == -1 || !(c in props.letters || c == 0x3a || c == 0x5f) {
      if c != -1 {
        ScanStep(name, 0, p);
      }
      return BadName;
    }
    ScanStep(name, 0, p);
    while p < |name|
      invariant p <= |name|
      invariant IsName(name, props) <==> IsNameRest(name[p..], props)
    {
      hide IsName, HasChar, IsUtf8Char, Scalar, BadLength;
      var q;
      c, q := NextUnicodeChar(name, p);
      if c == -1 {
        return BadUtf8;
      }
      ScanStep(name, p, q);
      if c !in props.nameChars {
        return BadName;
      }
      p := q;
    }
    r := Success;
  }

  /** Decimal digits, as sprintf makes them. */
  function Decimal(n: nat): (s: CString)
    ensures s != []
  {
    if n < 10 then [0x30 + n] else Decimal(n / 10) + [0x30 + n % 10]
  }

  lemma {:induction false} PlainIsText(s: bytes)
    requires forall i :: 0 <= i < |s| ==> 0x20 <= s[i] < 0x80
    ensures IsText(s)
  {
    if s != [] {
      assert s == Encode(s[0]) + s[1..];
      TextCons(s[0], s[1..]);
      PlainIsText(s[1..]);
    }
  }

  lemma XmlUriIsText()
    ensures IsText(XML_URI)
    ensures forall i :: 0 <= i < |XML_URI| ==> XML_URI[i] != 0
  {
    PlainIsText(XML_URI);
  }

  /** The registry a new writer starts with. */
  lemma FirstRegistryOk(t: Registry)
    requires |t.namespaces| == 1 && t.namespaces[0].name == XML_URI
    requires t.elements == [] && t.prefixes == [XMLNS_XML]
    requires |t.attributes| == 2 && t.attributes[0] == t.xmlns
    requires WantedOf(t.attributes[0]) == Wanted(NsDecl, null, XMLNS)
    requires WantedOf(t.attributes[1]) == Wanted(NsDecl, null, XMLNS_XML)
    ensures RegistryOk(t) && XMLNS_COLON < XMLNS_XML
  {
    XmlUriIsText();
    hide IsText, Compare;
    assert XMLNS_XML == XMLNS_COLON + XML_PREFIX;
    DefaultFirst(XMLNS_XML);
    ColonExtends(XMLNS_XML);
    assert KeyOrder(Keys(t.attributes)[0], Keys(t.attributes)[1]) < 0;
  }

  // ---------- What declaring a namespace does ----------

  datatype Fate = InEffect | DeclaredHere | NotAllowed | Declared

  /**
   What becomes of the attempt to declare `ns` by `decl` on the top element, given the
   cached fields of the namespace: the stack is looked at only if the flag is set.
   */
  function FateOf(ns: Namespace, decl: Attribute, declCount: int, baroque: bool, frames: seq<Frame>, xmlns: Attribute): Fate
    requires frames != []
  {
    if (if baroque then LastConcerning(AllBindings(frames), ns, decl) == Some(Binding(ns, decl)) else declCount > 0) then InEffect
    else if Count(Top(frames).bindings, ns) > 0 then DeclaredHere
    else if Top(frames).element.ns == null && decl == xmlns then NotAllowed
    else Declared
  }

  /** The same elements are open; the top one may have got more declarations. */
  predicate Extends(frames: seq<Frame>, frames': seq<Frame>)
    requires frames != []
  {
    && frames' != []
    && Below(frames') == Below(frames)
    && Top(frames').element == Top(frames).element
  }

  /** No attribute but `except` is touched. */
  twostate predicate OthersUntouched(aa: seq<Attribute>, new except: Attribute?)
    reads aa
  {
    forall x :: x in aa && x != except ==> x.provided == old(x.provided) && x.value == old(x.value)
  }

  /** The stack after an attempt with that fate. */
  predicate FramesAfter(fate: Fate, was: seq<Frame>, now: seq<Frame>, ns: Namespace, decl: Attribute)
    requires was != []
  {
    now == if fate == Declared then PushBinding(was, Binding(ns, decl)) else was
  }

  function StatusAfter(fate: Fate, declProvided: bool): Status {
    match fate
    case InEffect => Success
    case DeclaredHere => DuplicateNamespace
    case NotAllowed => BadDefaultDeclaration
    case Declared => if declProvided then DuplicateAttribute else Success
  }

  /** The attributes after an attempt with that fate: the declaration is printed with the next start tag. */
  twostate predicate AttributesAfter(fate: Fate, aa: seq<Attribute>, ns: Namespace, new decl: Attribute)
    reads aa, decl
  {
    if fate == Declared then
      && OthersUntouched(aa, decl)
      && decl.provided && decl.value == Escaped(InValue, ns.name)
    else OthersUntouched(aa, null)
  }

  // ---------- What is printed ----------

  /** The prefix a declaration gives; none for the default namespace. */
  function PrefixOf(d: Attribute): Option<bytes> {
    if XMLNS_COLON <= d.name then Some(d.name[|XMLNS_COLON|..]) else None
  }

  /** The prefix of an element, from the declarations in effect on it. */
  function ElementPrefix(e: Element, bs: seq<Binding>): Option<bytes> {
    if e.ns == null then None
    else
      match ElementStack.Innermost(bs, e.ns)
      case Some(d) => PrefixOf(d)
      case None => Some(XML_PREFIX)
  }

  /** The open elements of a checked document are the frames, named by the declarations in effect there. */
  predicate Matches(open: seq<(Option<bytes>, bytes)>, frames: seq<Frame>) {
    if frames == [] then open == []
    else
      && open != []
      && open[|open| - 1] == (ElementPrefix(Top(frames).element, AllBindings(frames)), Top(frames).element.kind)
      && Matches(open[..|open| - 1], Below(frames))
  }

  /** The attributes of a start tag as they are printed, in the order of the table. */
  ghost function PrintedAttributes(aa: seq<Attribute>): seq<TagAttribute>
    reads aa, set a | a in aa && a.ns != null :: a.ns
  {
    if aa == [] then []
    else
      var a := aa[|aa| - 1];
      PrintedAttributes(aa[..|aa| - 1]) + (if a.provided then [PrintedAttribute(a)] else [])
  }

  ghost function PrintedAttribute(a: Attribute): TagAttribute
    reads a, if a.ns == null then {} else {a.ns}
  {
    TagAttribute(
      KeyOf(WantedOf(a)),
      if a.ns == null || a.ns.declaration == null then None else Some(PrefixName(a.ns.declaration)),
      a.value)
  }

  /** What the source prints as the prefix of an attribute. */
  function PrefixName(d: Attribute): bytes {
    if |XMLNS_COLON| <= |d.name| then d.name[|XMLNS_COLON|..] else []
  }

  lemma {:induction false} PrintedBefore(aa: seq<Attribute>, k: Key)
    requires forall j :: 0 <= j < |aa| ==> KeyOrder(Keys(aa)[j], k) < 0
    ensures forall i :: 0 <= i < |PrintedAttributes(aa)| ==> KeyOrder(PrintedAttributes(aa)[i].key, k) < 0
  {
    hide KeyOrder;
    if aa != [] {
      var last := |aa| - 1;
      assert forall i :: 0 <= i < last ==> Keys(aa[..last])[i] == Keys(aa)[i];
      assert Keys(aa)[last] == KeyOf(WantedOf(aa[last]));
      PrintedBefore(aa[..last], k);
    }
  }

  /** Start tags print their attributes in the order of the sorted table. */
  lemma {:induction false} PrintedInOrder(aa: seq<Attribute>)
    requires SortedKeys(Keys(aa))
    ensures SortedKeys(TagKeys(PrintedAttributes(aa)))
  {
    hide KeyOrder;
    if aa != [] {
      var last := |aa| - 1;
      assert forall i :: 0 <= i < last ==> Keys(aa[..last])[i] == Keys(aa)[i];
      PrintedInOrder(aa[..last]);
      if aa[last].provided {
        PrintedBefore(aa[..last], Keys(aa)[last]);
        SortedPush(PrintedAttributes(aa[..last]), PrintedAttribute(aa[last]));
      }
    }
  }

  lemma SortedPush(attrs: seq<TagAttribute>, a: TagAttribute)
    requires SortedKeys(TagKeys(attrs))
    requires forall i :: 0 <= i < |attrs| ==> KeyOrder(attrs[i].key, a.key) < 0
    ensures SortedKeys(TagKeys(attrs + [a]))
  {
    hide KeyOrder;
    assert forall i :: 0 <= i < |attrs| ==> TagKeys(attrs + [a])[i] == TagKeys(attrs)[i];
  }

  lemma {:induction false} PrintedValues(aa: seq<Attribute>)
    requires forall a :: a in aa && a.provided ==> IsAttributeValue(a.value)
    ensures forall i :: 0 <= i < |PrintedAttributes(aa)| ==> IsAttributeValue(PrintedAttributes(aa)[i].value)
  {
    hide IsAttributeValue;
    if aa != [] {
      PrintedValues(aa[..|aa| - 1]);
    }
  }

  lemma XmlnsIsNamed(t: Registry)
    requires RegistryOk(t)
    ensures t.xmlns.name == XMLNS
  {
  }

  /** The prefix printed from the cached field is the one given by the declarations in effect. */
  lemma CachedPrefix(e: Element, bs: seq<Binding>, t: Registry)
    requires e.ns != null && NamespaceOk(e.ns, bs, t) && RegistryOk(t)
    requires Count(bs, e.ns) > 0 || (IsXml(e.ns) && !e.ns.baroque)
    ensures e.ns.declaration != null && IsDecl(e.ns.declaration, t)
    ensures ElementPrefix(e, bs) == PrefixOf(e.ns.declaration)
    ensures e.ns.declaration == t.xmlns <==> PrefixOf(e.ns.declaration) == None
    ensures e.ns.declaration != t.xmlns ==> PrefixOf(e.ns.declaration) == Some(e.ns.declaration.name[|XMLNS_COLON|..])
  {
    hide RegistryOk, Count, ElementStack.Innermost, IsXml, HasDefault;
    XmlnsIsNamed(t);
    assert |XMLNS| < |XMLNS_COLON|;
    if Count(bs, e.ns) == 0 {
      assert XMLNS_XML == XMLNS_COLON + XML_PREFIX;
    }
  }

  /** A namespace is declared after an attempt to declare it, unless the element is in no namespace. */
  lemma DeclaredAfterwards(
    ns: Namespace, decl: Attribute, declCount: int, baroque: bool, was: seq<Frame>, now: seq<Frame>, xmlns: Attribute)
    requires was != [] && Top(was).element.ns == ns && declCount == PreWired(ns) + Count(AllBindings(was), ns)
    requires FramesAfter(FateOf(ns, decl, declCount, baroque, was, xmlns), was, now, ns, decl)
    ensures Count(AllBindings(now), ns) > 0 || (IsXml(ns) && !baroque)
  {
    LastConcerningCounts(AllBindings(was), ns, decl);
    CountConcat(AllBindings(Below(was)), Top(was).bindings, ns);
    if now != was {
      AllBindingsPushBinding(was, Binding(ns, decl));
      InnermostPush(AllBindings(was), Binding(ns, decl), ns);
    }
  }

  lemma MatchesEmpty(open: seq<(Option<bytes>, bytes)>, frames: seq<Frame>)
    requires Matches(open, frames)
    ensures open == [] <==> frames == []
  {
  }

  /** A start tag named by the declarations in effect keeps the document in order. */
  lemma CheckStartTag(events: seq<Event>, frames: seq<Frame>, tag: Event)
    requires frames != [] && Check(events).Some?
    requires Matches(Check(events).value.open, Below(frames))
    requires Check(events).value.rootSeen <==> Below(frames) != []
    requires tag.StartTag? && AttributesAreFine(tag.attributes)
    requires tag.prefix == ElementPrefix(Top(frames).element, AllBindings(frames)) && tag.kind == Top(frames).element.kind
    ensures Check(events + [tag]).Some? && Check(events + [tag]).value.rootSeen
    ensures Matches(Check(events + [tag]).value.open, frames)
  {
    hide ElementPrefix, AllBindings, AttributesAreFine;
    CheckPush(events, tag);
    var open := Check(events).value.open;
    MatchesEmpty(open, Below(frames));
    var open' := open + [(tag.prefix, tag.kind)];
    assert open'[..|open'| - 1] == open;
  }

  /** So does an end tag named in the same way. */
  lemma CheckEndTag(events: seq<Event>, frames: seq<Frame>, tag: Event)
    requires frames != [] && Check(events).Some? && Matches(Check(events).value.open, frames)
    requires tag == EndTag(ElementPrefix(Top(frames).element, AllBindings(frames)), Top(frames).element.kind)
    ensures Check(events + [tag]).Some?
    ensures Check(events + [tag]).value.rootSeen == Check(events).value.rootSeen
    ensures Matches(Check(events + [tag]).value.open, Below(frames))
  {
    hide ElementPrefix, AllBindings;
    CheckPush(events, tag);
  }

  /** One that is named otherwise does not. */
  lemma CheckOtherEndTag(events: seq<Event>, frames: seq<Frame>, tag: Event)
    requires frames != [] && Check(events).Some? && Matches(Check(events).value.open, frames)
    requires tag.EndTag? && tag.prefix != ElementPrefix(Top(frames).element, AllBindings(frames))
    ensures Check(events + [tag]).None?
  {
    hide ElementPrefix, AllBindings;
    CheckPush(events, tag);
  }

  lemma EscapedIsValue(s: bytes)
    ensures IsAttributeValue(Escaped(InValue, s))
  {
    ResolveEscaped(InValue, s);
    EscapedHasNoSpecial(InValue, s);
  }

  /** `e` is in place and leaves the open elements as they are. */
  predicate KeepsOpen(p: Option<Progress>, e: Event) {
    p.Some? ==> Next(p.value, e) == p
  }

  lemma CharsKeepOpen(events: seq<Event>, text: bytes, frames: seq<Frame>)
    requires frames != []
    ensures Check(events).Some? && Matches(Check(events).value.open, frames) ==>
              KeepsOpen(Check(events), Chars(Escaped(InText, text)))
  {
    hide Check;
    ResolveEscaped(InText, text);
  }

  /** The tests of genxComment. */
  method CheckComment(text: CString) returns (r: Status)
    ensures r.Success? <==> IsCommentText(text)
    ensures !GoesWrong(r)
  {
    hide TextStatus;
    r := CheckText(text);
    if !r.Success? {
      return r;
    }
    if At(text, 0) == 0x2d {
      assert text[0] == 0x2d;
      return MalformedComment;
    }
    for i := 0 to |text|
      invariant forall k :: 0 <= k < i && text[k] == 0x2d ==> 0 < k < |text| - 1 && text[k + 1] != 0x2d
    {
      if text[i] == 0x2d && (At(text, i + 1) == 0x2d || At(text, i + 1) == 0) {
        return MalformedComment;
      }
    }
    r := Success;
  }

  // ---------- Small facts for the methods below ----------

  lemma DefaultIsSet(ns: Namespace, t: Registry)
    requires HasDefault(ns, t)
    ensures ns.defaultDecl != null
  {
  }

  lemma FateMeansRoom(
    ns: Namespace, decl: Attribute, declCount: int, baroque: bool, frames: seq<Frame>, xmlns: Attribute)
    requires frames != [] && FateOf(ns, decl, declCount, baroque, frames, xmlns) == Declared
    ensures baroque || declCount <= 0
  {
  }

  lemma CountIsNatural(ns: Namespace, bs: seq<Binding>, t: Registry)
    requires NamespaceOk(ns, bs, t)
    ensures ns.declCount >= 0
  {
  }

  /** As long as the xml namespace has not been declared again, none of the declarations is its. */
  lemma XmlHasNoDefault(nn: seq<Namespace>, bs: seq<Binding>, t: Registry)
    requires forall ns :: ns in nn ==> NamespaceOk(ns, bs, t)
    ensures forall ns :: ns in nn && IsXml(ns) && !ns.baroque && LastBy(bs, t.xmlns).Some? ==>
              LastBy(bs, t.xmlns).value.ns != ns
  {
    hide IsXml, IsDecl;
    LastByMember(bs, t.xmlns);
    forall ns | ns in nn && IsXml(ns) && !ns.baroque
      ensures LastBy(bs, t.xmlns).Some? ==> LastBy(bs, t.xmlns).value.ns != ns
    {
      assert NamespaceOk(ns, bs, t);
      CountMember(bs, ns);
    }
  }

  lemma XmlIsNotFree(ns: Namespace, bs: seq<Binding>, t: Registry)
    requires NamespaceOk(ns, bs, t) && (ns.baroque || ns.declCount == 0)
    ensures IsXml(ns) ==> ns.baroque
  {
  }

  lemma DeclIsPlain(decl: Attribute, t: Registry)
    requires IsDecl(decl, t)
    ensures decl in t.attributes && decl.ns == null
  {
  }

  lemma DefaultIsPlain(ns: Namespace, bs: seq<Binding>, t: Registry)
    requires NamespaceOk(ns, bs, t)
    ensures ns.defaultDecl != null && ns.defaultDecl.ns == null && ns.defaultDecl in t.attributes
    ensures IsDecl(ns.defaultDecl, t)
  {
  }

  lemma UndeclaredByXmlns(frames: seq<Frame>, t: Registry)
    requires FramesOk(frames, t)
    ensures UndeclaredBy(AllBindings(frames), t.xmlns)
  {
    forall i | 0 <= i < |AllBindings(frames)| && AllBindings(frames)[i].ns == null
      ensures AllBindings(frames)[i].decl == t.xmlns
    {
      assert BindingOk(AllBindings(frames)[i], t);
    }
  }

  lemma {:induction false} LastByMember(bs: seq<Binding>, decl: Attribute)
    ensures LastBy(bs, decl).Some? ==> LastBy(bs, decl).value in bs
  {
    if bs != [] && bs[|bs| - 1].decl != decl {
      LastByMember(bs[..|bs| - 1], decl);
    }
  }

  lemma NothingEscaped()
    ensures IsText([]) && Escaped(InValue, []) == []
  {
  }

  lemma LastByIsBinding(frames: seq<Frame>, decl: Attribute, t: Registry)
    requires FramesOk(frames, t)
    ensures var b := LastBy(AllBindings(frames), decl); b.Some? ==> BindingOk(b.value, t)
  {
    LastByMember(AllBindings(frames), decl);
  }

  lemma NameInKey(a: Attribute)
    ensures KeyOf(WantedOf(a)).name == a.name
  {
  }

  lemma NothingPrinted()
    ensures RenderAttributes(PrintedAttributes([])) == []
  {
  }

  lemma PrintedPush(aa: seq<Attribute>, a: Attribute)
    ensures RenderAttributes(PrintedAttributes(aa + [a])) ==
            RenderAttributes(PrintedAttributes(aa)) + (if a.provided then RenderAttribute(PrintedAttribute(a)) else [])
  {
    hide RenderAttribute, PrintedAttribute;
    assert (aa + [a])[..|aa|] == aa;
    var less := PrintedAttributes(aa);
    assert PrintedAttributes(aa + [a]) == less + (if a.provided then [PrintedAttribute(a)] else []);
    assert (less + [PrintedAttribute(a)])[..|less|] == less;
    assert less + [] == less;
  }

  lemma KnownNamespaces(t: Registry)
    requires RegistryOk(t)
    ensures NamespacesOk(t.namespaces) && forall e :: e in t.elements && e.ns != null ==> e.ns in t.namespaces
  {
  }

  lemma ElementIsKnown(frames: seq<Frame>, t: Registry)
    requires frames != [] && FramesOk(frames, t) && RegistryOk(t)
    ensures Top(frames).element in t.elements
    ensures Top(frames).element.ns != null ==> Top(frames).element.ns in t.namespaces
  {
    assert Top(frames) in frames;
  }

  lemma DeclCountIs(ns: Namespace, bs: seq<Binding>, t: Registry)
    requires NamespaceOk(ns, bs, t)
    ensures ns.declCount == PreWired(ns) + Count(bs, ns)
  {
  }

  lemma PrefixNameIs(d: Attribute)
    ensures PrefixOf(d) != None ==> PrefixOf(d) == Some(PrefixName(d))
  {
  }

  lemma NoPrefix(e: Element, bs: seq<Binding>)
    requires e.ns == null
    ensures ElementPrefix(e, bs) == None
  {
  }

  lemma TagAttributesAreFine(t: Registry)
    requires RegistryOk(t) && forall a :: a in t.attributes && a.provided ==> IsAttributeValue(a.value)
    ensures AttributesAreFine(PrintedAttributes(t.attributes))
  {
    PrintedInOrder(t.attributes);
    PrintedValues(t.attributes);
    KnownKeys(t);
    PrintedKeys(t.attributes);
  }

  /** Keys of known attributes are those that names of XML have. */
  lemma KnownKeys(t: Registry)
    requires RegistryOk(t)
    ensures forall a :: a in t.attributes ==> IsKey(KeyOf(WantedOf(a)))
  {
    hide SortedKeys, SortedStrings, Keys, IsText;
  }

  lemma {:induction false} PrintedKeys(aa: seq<Attribute>)
    requires forall a :: a in aa ==> IsKey(KeyOf(WantedOf(a)))
    ensures forall i :: 0 <= i < |PrintedAttributes(aa)| ==> IsKey(PrintedAttributes(aa)[i].key)
  {
    hide IsKey;
    if aa != [] {
      PrintedKeys(aa[..|aa| - 1]);
    }
  }

  lemma NothingYet()
    ensures Check([]) == Some(Progress([], false)) && Matches([], []) && RenderAll([]) == []
  {
  }

  lemma InnermostIsDecl(frames: seq<Frame>, ns: Namespace, t: Registry)
    requires FramesOk(frames, t)
    ensures var d := ElementStack.Innermost(AllBindings(frames), ns); d.Some? ==> IsDecl(d.value, t)
  {
    InnermostMember(AllBindings(frames), ns);
    var d := ElementStack.Innermost(AllBindings(frames), ns);
    if d.Some? {
      assert BindingOk(Binding(ns, d.value), t);
    }
  }

  /** The pair on top of the stack, and what is left without it. */
  lemma TopPair(frames: seq<Frame>, t: Registry)
    requires frames != [] && Top(frames).bindings != [] && FramesOk(frames, t)
    ensures var s, b, less := Flatten(frames), Top(frames).bindings[|Top(frames).bindings| - 1], DropBinding(frames);
            && |s| >= 4 && s[|s| - 2] == NamespaceEntry(b.ns) && s[..|s| - 2] == Flatten(less)
            && AllBindings(frames) == AllBindings(less) + [b]
            && FramesOk(less, t) && BindingOk(b, t)
            && less != [] && Below(less) == Below(frames) && Top(less).element == Top(frames).element
            && |Top(less).bindings| == |Top(frames).bindings| - 1
  {
    hide Flatten, AllBindings, BindingOk;
    FlattenTop(frames);
    AllBindingsDrop(frames);
    FramesOkDrop(frames, t);
    var all := AllBindings(frames);
    assert all[|all| - 1] in all;
    assert AllBindings(DropBinding(frames)) == all[..|all| - 1];
    assert all == all[..|all| - 1] + [all[|all| - 1]];
  }

  lemma BindingOfTop(b: Binding, t: Registry)
    requires BindingOk(b, t)
    ensures b.ns != null ==> b.ns in t.namespaces
  {
  }

  lemma NamespaceOkPopOther(ns: Namespace, b: Binding, bs: seq<Binding>, t: Registry)
    requires NamespaceOk(ns, bs + [b], t) && b.ns != ns
    ensures NamespaceOk(ns, bs, t)
  {
    CachesOkPushOther(ns, ns.declaration, ns.declCount, ns.baroque, b, bs, t);
  }

  lemma TopOfStack(frames: seq<Frame>)
    requires frames != []
    ensures var s := Flatten(frames); |s| > 1 && (s[|s| - 1] == Null <==> Top(frames).bindings == [])
    ensures Top(frames).bindings == [] ==>
              Flatten(frames)[..|Flatten(frames)| - 2] == Flatten(Below(frames)) && AllBindings(Below(frames)) == AllBindings(frames)
  {
    FlattenTop(frames);
    AllBindingsDrop(frames);
  }

  lemma CoveredTop(frames: seq<Frame>)
    requires frames != [] && Covered(frames)
    ensures var ns := Top(frames).element.ns; ns != null ==> Count(AllBindings(frames), ns) > 0 || IsXml(ns)
    ensures Covered(Below(frames))
  {
  }

  lemma DeclarationIsSet(ns: Namespace, bs: seq<Binding>, t: Registry)
    requires NamespaceOk(ns, bs, t) && (Count(bs, ns) > 0 || IsXml(ns))
    ensures ns.declaration != null
  {
    InnermostMember(bs, ns);
  }

  lemma FlattenEmpty(frames: seq<Frame>)
    ensures frames == [] <==> |Flatten(frames)| == 0
  {
    if frames != [] {
      FlattenTop(frames);
    }
  }

  lemma NamespaceOfAttribute(a: Attribute, t: Registry)
    requires RegistryOk(t) && a in t.attributes
    ensures a.ns != null ==> a.ns in t.namespaces
  {
    assert AttributeOk(a, t.namespaces);
  }

  lemma NamespaceAdded(t: Registry, ns: Namespace)
    requires RegistryOk(t) && ns.name != [] && IsText(ns.name)
    requires forall n :: n in t.namespaces ==> n.name != ns.name
    ensures var t' := t.(namespaces := t.namespaces + [ns]); RegistryOk(t') && Grows(t, t')
    ensures !IsXml(ns)
  {
    hide IsText, SortedKeys, Keys, TypeOf, SortedStrings;
  }

  lemma ElementAdded(t: Registry, e: Element)
    requires RegistryOk(t) && (e.ns != null ==> e.ns in t.namespaces)
    ensures var t' := t.(elements := t.elements + [e]); RegistryOk(t') && Grows(t, t')
  {
    hide NamespacesOk, SortedKeys, Keys, SortedStrings, AttributeOk;
  }

  lemma NoBindings(frames: seq<Frame>, ns: Namespace, t: Registry)
    requires FramesOk(frames, t) && ns !in t.namespaces
    ensures Count(AllBindings(frames), ns) == 0
  {
    forall i | 0 <= i < |AllBindings(frames)|
      ensures AllBindings(frames)[i].ns != ns
    {
      assert BindingOk(AllBindings(frames)[i], t);
    }
    CountMember(AllBindings(frames), ns);
  }

  lemma NamespacesHaveDefaults(nn: seq<Namespace>, bs: seq<Binding>, t: Registry)
    requires forall ns :: ns in nn ==> NamespaceOk(ns, bs, t)
    ensures forall ns :: ns in nn ==> HasDefault(ns, t)
  {
    hide Count, ElementStack.Innermost;
  }

  /** A namespace without declarations. */
  lemma NewNamespaceOk(ns: Namespace, bs: seq<Binding>, t: Registry)
    requires HasDefault(ns, t) && ns.declaration == null && ns.declCount == 0 && !IsXml(ns)
    requires Count(bs, ns) == 0
    ensures NamespaceOk(ns, bs, t)
  {
  }

  /** Setting the flag, or knowing more attributes, does not disturb what is declared. */
  lemma CachesOkGrow(
    ns: Namespace, d: Attribute?, n: int, baroque: bool, baroque': bool, bs: seq<Binding>, t: Registry, t': Registry)
    requires CachesOk(ns, d, n, baroque, bs, t) && Grows(t, t') && (baroque ==> baroque')
    ensures CachesOk(ns, d, n, baroque', bs, t')
  {
    hide Count, ElementStack.Innermost;
    if d != null {
      IsDeclGrows(d, t, t');
    }
  }

  lemma XmlnsIsDecl(t: Registry)
    requires RegistryOk(t)
    ensures IsDecl(t.xmlns, t)
  {
  }

  lemma PrefixedIsDecl(decl: Attribute, prefix: bytes, t: Registry)
    requires decl in t.attributes && decl.ns == null && decl.name == XMLNS_COLON + prefix && prefix != []
    requires RegistryOk(t)
    ensures IsDecl(decl, t) && decl != t.xmlns
  {
  }

  lemma PrefixInserted(t: Registry, p: bytes, at: nat)
    requires RegistryOk(t) && XMLNS_COLON < p && at <= |t.prefixes|
    requires p !in t.prefixes
    requires forall i :: 0 <= i < at ==> Compare(t.prefixes[i], p) <= 0
    requires forall i :: at <= i < |t.prefixes| ==> Compare(p, t.prefixes[i]) < 0
    ensures var t' := t.(prefixes := Inserted(t.prefixes, p, at)); RegistryOk(t') && Grows(t, t')
    ensures p in Inserted(t.prefixes, p, at)
  {
    hide Compare, NamespacesOk, SortedKeys, Keys, AttributeOk;
    forall i | 0 <= i < at
      ensures Compare(t.prefixes[i], p) < 0
    {
      assert t.prefixes[i] != p;
    }
    InsertedMembers(t.prefixes, p, at);
    InsertKeepsStringsSorted(t.prefixes, p, at);
  }
}
