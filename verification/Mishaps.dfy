/**
 Runs in which every call is allowed, and the last one makes the source read where it should not:
 attributes of a namespace whose default prefix was changed to the empty one.
 */
module Mishaps {
  import opened Options
  import opened Bytes
  import opened StatusCodes
  import opened Utf8
  import opened Escape
  import opened Tables
  import opened ElementStack
  import opened Events
  import opened WriterState
  import opened Scoping
  import opened Requests
  import opened Scenes
  import opened Failures
  import opened GenxWriter

  const A: CString := [0x61]
  const U: CString := [0x75]

  // ---------- What happens, as values ----------

  /** Only `ns` counts here; this is what its cached fields are on a stack of elements without declarations. */
  predicate IsBare(s: Scene, ns: Namespace, c: Cached) {
    && ns in s.caches && s.caches[ns] == c
    && forall f :: f in s.frames ==> f.bindings == []
  }

  lemma {:induction false} BareHasNone(frames: seq<Frame>)
    requires forall f :: f in frames ==> f.bindings == []
    ensures AllBindings(frames) == []
  {
    if frames != [] {
      BareHasNone(Below(frames));
    }
  }

  /** The empty prefix is not declared on an element in no namespace. */
  lemma StaysBare(s: Scene, ns: Namespace, c: Cached, xmlns: Attribute)
    requires IsBare(s, ns, c) && s.frames != [] && Top(s.frames).element.ns == null
    requires c.declCount == 0 && c.defaultDecl == xmlns
    ensures AttemptedByDefault(s, ns, xmlns) == s && Settled(s, xmlns) == s
  {
    BareHasNone(s.frames);
    assert Top(s.frames) in s.frames;
  }

  /** An element in the namespace declares it. */
  lemma IsDeclared(s: Scene, ns: Namespace, c: Cached, xmlns: Attribute)
    requires IsBare(s, ns, c) && s.frames != [] && Top(s.frames).element.ns == ns
    requires c.declCount == 0 && c.defaultDecl == xmlns
    ensures Settled(s, xmlns) == AttemptedByDefault(s, ns, xmlns) == Bound(s, ns, xmlns)
  {
    BareHasNone(s.frames);
    assert Top(s.frames) in s.frames;
  }

  /** When it is closed, what was declared is still cached. */
  lemma IsStale(s: Scene, ns: Namespace, c: Cached, xmlns: Attribute)
    requires IsBare(s, ns, c) && s.frames != [] && c.declCount == 0 && c.defaultDecl == xmlns
    ensures Closed(Bound(s, ns, xmlns)).frames == Below(s.frames)
    ensures IsBare(Closed(Bound(s, ns, xmlns)), ns, Cached(xmlns, 0, false, xmlns))
  {
    hide AllBindings;
    BareHasNone(s.frames);
    var t, b := Bound(s, ns, xmlns), Binding(ns, xmlns);
    assert Top(s.frames) in s.frames && Top(s.frames).bindings == [];
    assert Top(t.frames).bindings == [] + [b] == [b];
    assert DropBinding(t.frames) == s.frames;
    assert Bared(t) == Bared(Dropped(t)) == Dropped(t);
  }

  /** An element in the namespace declares it once, if it is in good taste again. */
  lemma IsInEffect(s: Scene, ns: Namespace, c: Cached, xmlns: Attribute)
    requires IsBare(s, ns, c) && s.frames != [] && Top(s.frames).element.ns == ns
    requires c.declCount == 0 && !c.baroque && c.defaultDecl == xmlns
    ensures Settled(Bound(s, ns, xmlns), xmlns) == Bound(s, ns, xmlns)
    ensures FailureOf(Bound(s, ns, xmlns).caches[ns], xmlns) == ReadPastName
  {
  }

  lemma BoundHas(s: Scene, ns: Namespace, decl: Attribute)
    requires s.frames != [] && ns in s.caches
    ensures Bound(s, ns, decl).frames != [] && ns in Bound(s, ns, decl).caches
  {
  }

  lemma NothingToFail(aa: seq<Attribute>, m: map<Namespace, Cached>, xmlns: Attribute)
    ensures FirstFailure(aa, map[], m, xmlns) == Success
  {
    AllPrint(aa, map[], m, xmlns);
  }

  lemma {:induction false} OneToFail(aa: seq<Attribute>, a: Attribute, v: bytes, m: map<Namespace, Cached>, xmlns: Attribute)
    requires a.ns != null && a.ns in m
    ensures FirstFailure(aa, map[a := v], m, xmlns) == if a in aa then FailureOf(m[a.ns], xmlns) else Success
  {
    hide FailureOf;
    if aa != [] {
      OneToFail(aa[..|aa| - 1], a, v, m, xmlns);
    }
  }

  // ---------- Runs ----------

  lemma ShortName(props: CharProperties)
    requires 0x61 in props.letters
    ensures IsName(A, props)
  {
  }

  lemma ShortText()
    ensures IsText(U) && IsText([]) && Escaped(InValue, []) == []
  {
    PlainIsText(U);
  }

  /** What the runs start from: `a` is in `ns`, which has had a prefix and now has the empty one. */
  ghost predicate IsSet(w: Writer, ns: Namespace, a: Attribute, c: Cached)
    reads w, w.namespaces
  {
    && w.Valid() && a in w.attributes && a.ns == ns
    && IsBare(w.Now(), ns, c) && c.declCount == 0 && c.defaultDecl == w.xmlnsEquals
  }

  /** Start an element. */
  method Start(w: Writer, e: Element, ns: Namespace, a: Attribute, ghost c: Cached) returns (r: Status)
    requires IsSet(w, ns, a, c) && e in w.elements
    requires w.sequence == BeforeRoot || w.sequence == InContent
             || (w.sequence == InStartTag && w.frames != [] && Top(w.frames).element.ns == null && Gathered(w.attributes) == map[])
    modifies w`status, w`stack, w`frames, w`events, w`sequence, w`nowStarting
    modifies (if w.sender == null then {} else {w.sender}), w.attributes
    modifies w.namespaces`declaration, w.namespaces`declCount, w.namespaces`baroque
    ensures r.Success? && IsSet(w, ns, a, c)
    ensures w.sequence == InStartTag && w.frames == old(w.frames) + [Frame(e, [])]
    ensures Gathered(w.attributes) == map[] && !a.provided
  {
    hide Writer.Valid, Caches, FirstFailure, Settled, AttemptedByDefault, Writer.Clean, Writer.Scoped, Writer.Said;
    hide Writer.XmlKept;
    ghost var s := w.Now();
    if w.sequence == InStartTag {
      StaysBare(s, ns, c, w.xmlnsEquals);
      NothingToFail(w.attributes, Settled(s, w.xmlnsEquals).caches, w.xmlnsEquals);
    }
    r := w.StartElement(e);
  }

  /** Give the attribute an empty value; its namespace cannot be declared, which is not reported. */
  method Add(w: Writer, ns: Namespace, a: Attribute, ghost c: Cached) returns (r: Status)
    requires IsSet(w, ns, a, c) && w.sequence == InStartTag && !a.provided && Gathered(w.attributes) == map[]
    requires w.frames != [] && Top(w.frames).element.ns == null
    modifies w`status, w`stack, w`frames, w`sequence, w.attributes, ns`declaration, ns`declCount
    ensures r.Success? && IsSet(w, ns, a, c) && w.sequence == InAttributes && w.frames == old(w.frames)
    ensures Gathered(w.attributes) == map[a := []]
  {
    hide Writer.Valid, Caches, Settled, AttemptedByDefault, Writer.Clean, Writer.Scoped, Writer.Said, Writer.XmlKept;
    hide IsText, TextStatus;
    ShortText();
    StaysBare(w.Now(), ns, c, w.xmlnsEquals);
    r := w.AddAttributeCall(a, Some([]));
  }

  /** The end of an element without a namespace of which it is the only attribute. */
  method End(w: Writer, ns: Namespace, a: Attribute, ghost c: Cached) returns (r: Status)
    requires IsSet(w, ns, a, c) && w.sequence == InAttributes && Gathered(w.attributes) == map[a := []]
    requires w.frames != [] && Top(w.frames).element.ns == null
    modifies w`status, w`stack, w`frames, w`events, w`sequence
    modifies (if w.sender == null then {} else {w.sender}), w.attributes
    modifies w.namespaces`declaration, w.namespaces`declCount, w.namespaces`baroque
    ensures r == FailureOf(c, w.xmlnsEquals)
  {
    hide Writer.Valid, Caches, FirstFailure, FailureOf, Settled, AttemptedByDefault, Writer.Clean, Writer.Scoped;
    hide Writer.Said, Writer.XmlKept;
    StaysBare(w.Now(), ns, c, w.xmlnsEquals);
    OneToFail(w.attributes, a, [], w.Now().caches, w.xmlnsEquals);
    r := w.EndElement();
  }

  /** The end of an element that has no attributes but is in the namespace. */
  method EndInside(w: Writer, ns: Namespace, a: Attribute, ghost c: Cached) returns (r: Status)
    requires IsSet(w, ns, a, c) && w.sequence == InStartTag && Gathered(w.attributes) == map[]
    requires |w.frames| > 1 && Top(w.frames).element.ns == ns
    modifies w`status, w`stack, w`frames, w`events, w`sequence
    modifies (if w.sender == null then {} else {w.sender}), w.attributes
    modifies w.namespaces`declaration, w.namespaces`declCount, w.namespaces`baroque
    ensures r.Success? && IsSet(w, ns, a, Cached(w.xmlnsEquals, 0, false, w.xmlnsEquals))
    ensures w.sequence == InContent && w.frames == Below(old(w.frames))
  {
    hide Writer.Valid, Caches, FirstFailure, Settled, Closed, Bound, Writer.Clean, Writer.Scoped, Writer.Said;
    hide Writer.XmlKept;
    IsDeclared(w.Now(), ns, c, w.xmlnsEquals);
    IsStale(w.Now(), ns, c, w.xmlnsEquals);
    NothingToFail(w.attributes, Settled(w.Now(), w.xmlnsEquals).caches, w.xmlnsEquals);
    r := w.EndElement();
  }

  /** The same for an attribute of an element in the namespace, whose own declaration is by the empty prefix. */
  method AddAndEnd(w: Writer, ns: Namespace, a: Attribute, ghost c: Cached) returns (r: Status)
    requires IsSet(w, ns, a, c) && w.sequence == InStartTag && !a.provided && Gathered(w.attributes) == map[]
    requires w.frames != [] && Top(w.frames).element.ns == ns && !c.baroque
    modifies w`status, w`stack, w`frames, w`events, w`sequence
    modifies (if w.sender == null then {} else {w.sender}), w.attributes
    modifies ns`declaration, ns`declCount, w.namespaces`declaration, w.namespaces`declCount, w.namespaces`baroque
    ensures r == ReadPastName
  {
    hide Writer.Valid, Caches, FirstFailure, FailureOf, Settled, Bound, AttemptedByDefault, IsText, TextStatus;
    hide Writer.Clean, Writer.Scoped, Writer.Said, Writer.XmlKept, Writer.Tried, Closed, Furnished, KeyOf, WantedOf;
    hide Extends;
    ShortText();
    ghost var s := w.Now();
    IsDeclared(s, ns, c, w.xmlnsEquals);
    IsInEffect(s, ns, c, w.xmlnsEquals);
    BoundHas(s, ns, w.xmlnsEquals);
    r := w.AddAttributeCall(a, Some([]));
    OneToFail(w.attributes, a, [], w.Now().caches, w.xmlnsEquals);
    r := w.EndElement();
  }

  /** A namespace under a prefix. */
  method Declare(props: CharProperties) returns (w: Writer, ns: Namespace)
    requires 0x61 in props.letters
    ensures fresh(w) && (forall n :: n in w.namespaces ==> fresh(n)) && (forall x :: x in w.attributes ==> fresh(x))
    ensures w.Valid() && w.props == props && w.sequence == NoDocument && w.frames == [] && w.sender == null
    ensures ns in w.namespaces && ns.name == U && !w.defaultNsDeclared
    ensures CachedOf(ns) == Cached(null, 0, false, ns.defaultDecl) && ns.defaultDecl != w.xmlnsEquals
  {
    hide Writer.Valid, IsText, IsName, Writer.Said, Grows;
    ShortName(props);
    ShortText();
    w := new Writer(props);
    assert forall k :: 0 <= k < |w.attributes| ==> w.attributes[k] in w.attributes;
    assert XMLNS_COLON + A != XMLNS_XML;
    assert U != XML_URI;
    CachesMember(w.namespaces, w.namespaces[0]);
    var r;
    ns, r := w.DeclareNamespace(U, Some(A), Success);
  }

  /** The namespace gets the empty prefix. */
  method Change(w: Writer, ns: Namespace) returns (r: Status)
    requires w.Valid() && ns in w.namespaces && ns.name == U && !w.defaultNsDeclared
    requires CachedOf(ns) == Cached(null, 0, false, ns.defaultDecl) && ns.defaultDecl != w.xmlnsEquals
    modifies w`namespaces, w`prefixes, w`attributes, w`status, w`defaultNsDeclared, w`nextPrefix, w.namespaces
    ensures r.Success? && w.Valid() && ns in w.namespaces
    ensures forall n :: n in w.namespaces ==> n in old(w.namespaces) || fresh(n)
    ensures forall x :: x in w.attributes ==> x in old(w.attributes) || fresh(x)
    ensures forall x :: x in old(w.attributes) ==> x in w.attributes
    ensures CachedOf(ns) == Cached(null, 0, true, w.xmlnsEquals)
  {
    hide Writer.Valid, IsText, IsName, Writer.Said;
    ShortText();
    CachesMember(w.namespaces, ns);
    var same;
    same, r := w.DeclareNamespace(U, Some([]), Success);
    TablesAreOk(w);
    NamesDiffer(w.namespaces, ns, same);
  }

  /** A namespace under a prefix, an attribute in it, and then the empty prefix for the namespace. */
  method Prepare(props: CharProperties) returns (w: Writer, ns: Namespace, a: Attribute)
    requires 0x61 in props.letters
    ensures fresh(w) && (forall n :: n in w.namespaces ==> fresh(n)) && (forall x :: x in w.attributes ==> fresh(x))
    ensures IsSet(w, ns, a, Cached(null, 0, true, w.xmlnsEquals)) && ns in w.namespaces
    ensures w.props == props && w.sequence == NoDocument && w.frames == [] && w.sender == null
  {
    hide Writer.Valid, IsText, IsName, Writer.Said;
    ShortName(props);
    var r;
    w, ns := Declare(props);
    a, r := w.DeclareAttribute(ns, A, Success);
    assert forall k :: 0 <= k < |w.namespaces| ==> w.namespaces[k] in w.namespaces;
    r := Change(w, ns);
    CachesMember(w.namespaces, ns);
  }

  /** The same with elements: `plain` is in no namespace, `inside` is in `ns`. */
  method PrepareElements(props: CharProperties, out: Sender)
    returns (w: Writer, ns: Namespace, a: Attribute, plain: Element, inside: Element)
    requires 0x61 in props.letters
    ensures fresh(w) && fresh(w.namespaces) && fresh(w.attributes)
    ensures IsSet(w, ns, a, Cached(null, 0, true, w.xmlnsEquals)) && ns in w.namespaces
    ensures plain in w.elements && plain.ns == null && inside in w.elements && inside.ns == ns
    ensures w.sequence == BeforeRoot && w.frames == [] && w.sender == out
  {
    hide Writer.Valid, IsText, IsName, Writer.Said, IsBare, Writer.Now;
    ShortName(props);
    w, ns, a := Prepare(props);
    var r;
    plain, r := w.DeclareElement(null, A, Success);
    inside, r := w.DeclareElement(ns, A, Success);
    r := w.StartDocument(out);
    assert forall k :: 0 <= k < |w.namespaces| ==> w.namespaces[k] in w.namespaces;
    assert forall k :: 0 <= k < |w.attributes| ==> w.attributes[k] in w.attributes;
  }

  /** The namespace was never declared on the stack: the source follows a null pointer. */
  method NeverDeclared(props: CharProperties, out: Sender) returns (r: Status)
    requires 0x61 in props.letters
    modifies out
    ensures r == NullDeclaration
  {
    hide IsSet;
    var w, ns, a, plain, inside := PrepareElements(props, out);
    ghost var c := Cached(null, 0, true, w.xmlnsEquals);
    r := Start(w, plain, ns, a, c);
    r := Add(w, ns, a, c);
    r := End(w, ns, a, c);
  }

  /** It was, on an element that is closed by now: the source reads past the name `xmlns`. */
  method StaleDeclaration(props: CharProperties, out: Sender) returns (r: Status)
    requires 0x61 in props.letters
    modifies out
    ensures r == ReadPastName
  {
    hide IsSet;
    var w, ns, a, plain, inside := PrepareElements(props, out);
    ghost var c := Cached(null, 0, true, w.xmlnsEquals);
    r := Start(w, plain, ns, a, c);
    r := Start(w, inside, ns, a, c);
    r := EndInside(w, ns, a, c);
    c := Cached(w.xmlnsEquals, 0, false, w.xmlnsEquals);
    r := Start(w, plain, ns, a, c);
    r := Add(w, ns, a, c);
    r := End(w, ns, a, c);
  }

  /** It is declared on the element itself, after it was on another: the source does so, too. */
  method OwnDeclaration(props: CharProperties, out: Sender) returns (r: Status)
    requires 0x61 in props.letters
    modifies out
    ensures r == ReadPastName
  {
    hide IsSet;
    var w, ns, a, plain, inside := PrepareElements(props, out);
    ghost var c := Cached(null, 0, true, w.xmlnsEquals);
    r := Start(w, plain, ns, a, c);
    r := Start(w, inside, ns, a, c);
    r := EndInside(w, ns, a, c);
    c := Cached(w.xmlnsEquals, 0, false, w.xmlnsEquals);
    r := Start(w, inside, ns, a, c);
    r := AddAndEnd(w, ns, a, c);
  }

  lemma TablesAreOk(w: Writer)
    requires w.Valid()
    ensures RegistryOk(w.Records()) && NamespacesOk(w.namespaces)
  {
  }

  // ---------- The xml namespace, declared again ----------

  /** The pre-wired prefix is in effect. */
  lemma KeepsXml(s: Scene, e: Element, xml: Namespace, d: Attribute, xmlns: Attribute)
    requires s.frames == [Frame(e, [])] && e.ns == xml && xml in s.caches && s.caches[xml] == Cached(d, 1, false, d)
    ensures Settled(s, xmlns) == s
  {
  }

  /** An element inside it declares the empty prefix. */
  lemma DeclaresXml(s: Scene, e: Element, xml: Namespace, d: Attribute, xmlns: Attribute)
    requires s.frames == [Frame(e, []), Frame(e, [])] && e.ns == xml && xml in s.caches
    requires s.caches[xml] == Cached(d, 1, false, d) && d != xmlns
    ensures FateIn(FlaggedUnless(s, xml, xmlns), xml, xmlns, xmlns) == Declared
    ensures var t := AttemptedBy(s, xml, xmlns, xmlns);
            && t.frames == [Frame(e, []), Frame(e, [Binding(xml, xmlns)])]
            && xml in t.caches && t.caches[xml] == Cached(xmlns, 2, true, d)
  {
    BareHasNone(s.frames);
    assert Below(s.frames) == [Frame(e, [])] && [] + [Binding(xml, xmlns)] == [Binding(xml, xmlns)];
  }

  /** Nothing more is declared when its start tag is finished. */
  lemma StaysRebound(s: Scene, e: Element, xml: Namespace, d: Attribute, xmlns: Attribute)
    requires s.frames == [Frame(e, []), Frame(e, [Binding(xml, xmlns)])] && e.ns == xml && xml in s.caches
    requires s.caches[xml] == Cached(xmlns, 2, true, d) && d != xmlns
    ensures Settled(s, xmlns) == s && !XmlIsStale(s)
  {
    OneBinding(e, xml, xmlns);
  }

  lemma OneBinding(e: Element, ns: Namespace, decl: Attribute)
    ensures AllBindings([Frame(e, []), Frame(e, [Binding(ns, decl)])]) == [Binding(ns, decl)]
    ensures Count([Binding(ns, decl)], ns) == 1
  {
    var frames := [Frame(e, []), Frame(e, [Binding(ns, decl)])];
    assert Below(frames) == [Frame(e, [])];
    BareHasNone([Frame(e, [])]);
  }

  /** When it is closed, the pre-wired prefix is not found again. */
  lemma LosesXml(s: Scene, e: Element, xml: Namespace, d: Attribute, xmlns: Attribute)
    requires s.frames == [Frame(e, []), Frame(e, [Binding(xml, xmlns)])] && e.ns == xml && IsXml(xml) && xml in s.caches
    requires s.caches[xml] == Cached(xmlns, 2, true, d) && xmlns.name == XMLNS
    ensures XmlIsStale(Closed(s))
  {
    hide AllBindings;
    var bare := [Frame(e, []), Frame(e, [])];
    BareHasNone(bare);
    BareHasNone([Frame(e, [])]);
    assert DropBinding(s.frames) == bare;
    assert Bared(s) == Bared(Dropped(s)) == Dropped(s);
    assert Below(s.frames) == [Frame(e, [])];
    assert |XMLNS| != |XMLNS_XML|;
  }

  /** The open elements are all `e`, in the xml namespace, whose cached fields are `c`; nothing was gathered. */
  ghost predicate XmlIs(w: Writer, e: Element, xml: Namespace, frames: seq<Frame>, c: Cached)
    reads w, w.namespaces, w.attributes, if w.sender == null then {} else {w.sender}
  {
    && w.Valid() && w.Clean() && e in w.elements && e.ns == xml && IsXml(xml) && xml in w.namespaces
    && w.Now().frames == frames && xml in w.Now().caches && w.Now().caches[xml] == c
    && Gathered(w.attributes) == map[] && c.defaultDecl != w.xmlnsEquals
  }

  /** A new document, and an element in the xml namespace. */
  method PrepareXml(props: CharProperties, out: Sender) returns (w: Writer, e: Element, xml: Namespace)
    requires 0x61 in props.letters
    ensures fresh(w) && fresh(w.namespaces) && fresh(w.attributes) && w.sequence == BeforeRoot && w.sender == out
    ensures w.frames == [] && xml in w.namespaces && xml.defaultDecl != null
    ensures XmlIs(w, e, xml, [], Cached(xml.defaultDecl, 1, false, xml.defaultDecl))
  {
    hide IsName, Writer.Valid, Writer.Said, Writer.Clean, Writer.Scoped, Writer.XmlKept, Writer.Tried, Writer.Outlook;
    hide IsDeclaration;
    ShortName(props);
    var r;
    w := new Writer(props);
    w.NothingWritten();
    xml := w.namespaces[0];
    NeverDeclaredAgain(w, xml);
    e, r := w.DeclareElement(xml, A, Success);
    r := w.StartDocument(out);
  }

  lemma XmlnsIsKnown(w: Writer)
    requires w.Valid()
    ensures w.xmlnsEquals in w.attributes && w.xmlnsEquals.name == XMLNS
  {
  }

  lemma NeverDeclaredAgain(w: Writer, xml: Namespace)
    requires w.Valid() && w.frames == [] && xml in w.namespaces && IsXml(xml) && !xml.baroque
    ensures xml.defaultDecl != null && CachedOf(xml) == Cached(xml.defaultDecl, 1, false, xml.defaultDecl)
  {
    assert NamespaceOk(xml, AllBindings(w.frames), w.Records());
  }

  /** The element is started, as the root or inside of itself. */
  method StartInXml(w: Writer, e: Element, xml: Namespace, ghost d: Attribute) returns (r: Status)
    requires XmlIs(w, e, xml, w.frames, Cached(d, 1, false, d))
    requires (w.sequence == BeforeRoot && w.frames == []) || (w.sequence == InStartTag && w.frames == [Frame(e, [])])
    modifies w`status, w`stack, w`frames, w`events, w`sequence, w`nowStarting
    modifies (if w.sender == null then {} else {w.sender}), w.attributes
    modifies w.namespaces`declaration, w.namespaces`declCount, w.namespaces`baroque
    ensures r.Success? && w.sequence == InStartTag && forall x :: x in w.attributes ==> !x.provided
    ensures w.frames == old(w.frames) + [Frame(e, [])] && XmlIs(w, e, xml, w.frames, Cached(d, 1, false, d))
  {
    hide Writer.Valid, Caches, FirstFailure, Settled, IsXml, Writer.Clean, Writer.Scoped, Writer.Said, Writer.XmlKept;
    hide Writer.Tried;
    hide IsDeclaration, Extends, Below, Top;
    ghost var s := w.Now();
    if w.sequence == InStartTag {
      KeepsXml(s, e, xml, d, w.xmlnsEquals);
      NothingToFail(w.attributes, s.caches, w.xmlnsEquals);
    }
    r := w.StartElement(e);
  }

  /** The inner one declares the namespace again. */
  method DeclareXml(w: Writer, e: Element, xml: Namespace, ghost d: Attribute) returns (r: Status)
    requires XmlIs(w, e, xml, [Frame(e, []), Frame(e, [])], Cached(d, 1, false, d)) && w.sequence == InStartTag
    requires forall x :: x in w.attributes ==> !x.provided
    modifies w`status, w`stack, w`frames, w`prefixes, w`attributes
    modifies xml`declaration, xml`declCount, xml`baroque, w.attributes
    ensures r.Success? && forall x :: x in w.attributes ==> x in old(w.attributes) || fresh(x)
    ensures XmlIs(w, e, xml, [Frame(e, []), Frame(e, [Binding(xml, w.xmlnsEquals)])], Cached(w.xmlnsEquals, 2, true, d))
  {
    hide Writer.Valid, Caches, IsXml, Writer.Clean, Writer.Scoped, Writer.Said, Writer.XmlKept, Writer.Tried;
    hide AttemptedBy, FateIn, FlaggedUnless, UsesDefault, CachedOf;
    XmlnsIsKnown(w);
    DeclaresXml(w.Now(), e, xml, d, w.xmlnsEquals);
    r := w.AddNamespaceCall(xml, Some([]));
  }

  /** Both elements are ended. */
  method EndBoth(w: Writer, e: Element, xml: Namespace, ghost d: Attribute) returns (r: Status)
    requires XmlIs(w, e, xml, [Frame(e, []), Frame(e, [Binding(xml, w.xmlnsEquals)])], Cached(w.xmlnsEquals, 2, true, d))
    requires w.sequence == InStartTag
    modifies w`status, w`stack, w`frames, w`events, w`sequence
    modifies (if w.sender == null then {} else {w.sender}), w.attributes
    modifies w.namespaces`declaration, w.namespaces`declCount, w.namespaces`baroque
    ensures r.Success? && Check(w.events).None?
  {
    hide Writer.Valid, Caches, FirstFailure, IsXml, Writer.Clean, Writer.Scoped, Writer.Said, Writer.XmlKept;
    hide Writer.Tried;
    hide Settled, Closed, XmlIsStale, Check;
    StaysRebound(w.Now(), e, xml, d, w.xmlnsEquals);
    NothingToFail(w.attributes, w.Now().caches, w.xmlnsEquals);
    XmlnsIsKnown(w);
    LosesXml(w.Now(), e, xml, d, w.xmlnsEquals);
    r := w.EndElement();
    r := w.EndElement();
  }

  /**
   The xml namespace is declared once more on an element inside another one that is in it. All calls
   succeed, but the two tags of the outer element are named differently.
   */
  method XmlDeclaredAgain(props: CharProperties, out: Sender) returns (w: Writer, r: Status)
    requires 0x61 in props.letters
    modifies out
    ensures r.Success? && Check(w.events).None?
  {
    hide XmlIs, Check, Writer.Said, Writer.Tried, Writer.Scoped, IsXml;
    var e, xml;
    w, e, xml := PrepareXml(props, out);
    ghost var d := xml.defaultDecl;
    r := StartInXml(w, e, xml, d);
    r := StartInXml(w, e, xml, d);
    assert [] + [Frame(e, [])] + [Frame(e, [])] == [Frame(e, []), Frame(e, [])];
    r := DeclareXml(w, e, xml, d);
    assert forall k :: 0 <= k < |w.attributes| ==> w.attributes[k] in w.attributes;
    r := EndBoth(w, e, xml, d);
  }
}
