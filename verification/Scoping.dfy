/**
 Plain use of namespaces: each has a default prefix of its own, not the empty one, and
 is used under that prefix only. Then tags are scoped as Namespaces in XML asks.
 */
module Scoping {
  import opened Options
  import opened Bytes
  import opened StatusCodes
  import opened Utf8
  import opened Escape
  import opened Tables
  import opened ElementStack
  import opened Events
  import opened WriterState

  // ---------- Plain use ----------

  /** No namespace was ever given a second prefix, or the empty one. */
  ghost predicate PlainNamespaces(nn: seq<Namespace>, xmlns: Attribute)
    reads nn`baroque, nn`defaultDecl
  {
    forall ns :: ns in nn ==> !ns.baroque && ns.defaultDecl != null && ns.defaultDecl != xmlns
  }

  /** Every declaration in effect is of a namespace, by its default prefix. */
  ghost predicate PlainBindings(bs: seq<Binding>, nn: seq<Namespace>)
    reads nn`defaultDecl
  {
    forall b :: b in bs ==> b.ns != null && b.ns in nn && b.decl == b.ns.defaultDecl
  }

  /** The declarations of the current element. */
  predicate Declares(bs: seq<Binding>, decl: Attribute) {
    exists b :: b in bs && b.decl == decl
  }

  predicate IsDeclaration(a: Attribute) {
    a.ns == null && IsDeclarationName(a.name)
  }

  /**
   The start tag being gathered will print exactly the declarations made on the element,
   and namespaces of the attributes it will print are in effect.
   */
  ghost predicate TagInStep(aa: seq<Attribute>, bs: seq<Binding>, own: seq<Binding>)
    reads aa
  {
    && (forall b :: b in own ==>
          && b.ns != null && b.decl in aa
          && b.decl.provided && b.decl.value == Escaped(InValue, b.ns.name))
    && (forall a :: a in aa && a.provided && IsDeclaration(a) ==> Declares(own, a))
    && (forall a :: a in aa && a.provided && a.ns != null ==> Count(bs, a.ns) > 0 || IsXml(a.ns))
  }

  /** What declarations in effect mean: prefixes and what they stand for. */
  function ScopeOf(bs: seq<Binding>): Scope {
    set b | b in bs && b.ns != null :: (PrefixName(b.decl), b.ns.name)
  }

  /** The scopes of the open elements are those of the frames. */
  predicate MatchesScopes(scopes: seq<Scope>, frames: seq<Frame>) {
    if frames == [] then scopes == []
    else
      && scopes != []
      && scopes[|scopes| - 1] == ScopeOf(AllBindings(frames))
      && MatchesScopes(scopes[..|scopes| - 1], Below(frames))
  }

  predicate ScopedAs(events: seq<Event>, printed: seq<Frame>) {
    Scopes(events).Some? && MatchesScopes(Scopes(events).value, printed)
  }

  lemma CurrentScopeIs(scopes: seq<Scope>, frames: seq<Frame>)
    requires MatchesScopes(scopes, frames)
    ensures CurrentScope(scopes) == ScopeOf(AllBindings(frames))
  {
  }

  // ---------- Cached fields as values ----------

  datatype Cached = Cached(declaration: Attribute?, declCount: int, baroque: bool, defaultDecl: Attribute?)

  ghost function CachedOf(ns: Namespace): Cached
    reads ns
  {
    Cached(ns.declaration, ns.declCount, ns.baroque, ns.defaultDecl)
  }

  ghost function Caches(nn: seq<Namespace>): map<Namespace, Cached>
    reads nn
  {
    map ns | ns in nn :: CachedOf(ns)
  }

  lemma CachesMember(nn: seq<Namespace>, ns: Namespace)
    ensures ns in Caches(nn) <==> ns in nn
    ensures ns in nn ==> Caches(nn)[ns] == CachedOf(ns) && Caches(nn)[ns := CachedOf(ns)] == Caches(nn)
    ensures Caches(nn + [ns]) == Caches(nn)[ns := CachedOf(ns)]
  {
  }

  /** The caller gives no prefix, or the default one. */
  predicate UsesDefault(c: Cached, prefix: Option<bytes>) {
    prefix.None? || (c.defaultDecl != null && c.defaultDecl.name == XMLNS_COLON + prefix.value)
  }

  /** A namespace that has just got its first default prefix. */
  predicate NewlyCached(c: Cached, prefix: bytes, xmlns: Attribute) {
    && c.declaration == null && c.declCount == 0 && !c.baroque && c.defaultDecl != null
    && if c.defaultDecl == xmlns then prefix == [] else c.defaultDecl.name == XMLNS_COLON + prefix
  }

  /** The same declarations, perhaps another default prefix; the flag tells. */
  predicate CachedAgain(c: Cached, was: Cached) {
    && c.declaration == was.declaration && c.declCount == was.declCount && c.defaultDecl != null
    && c.baroque == (was.baroque || c.defaultDecl != was.defaultDecl)
  }

  /** The prefix a new namespace gets if the caller does not choose one: g1, g2 and so on. */
  function ChosenPrefix(prefix: Option<CString>, serial: nat): CString {
    match prefix
    case None => [0x67] + Decimal(serial)
    case Some(p) => p
  }

  /** What declaring a namespace does to its cached fields. */
  predicate NamespaceDeclared(
    was: map<Namespace, Cached>, ns: Namespace, c: Cached, prefix: Option<CString>, serial: nat, xmlns: Attribute)
  {
    if ns in was then CachedAgain(c, was[ns]) && (UsesDefault(was[ns], prefix) ==> c == was[ns])
    else NewlyCached(c, ChosenPrefix(prefix, serial), xmlns)
  }

  /** Plain use, read from the cached fields. */
  predicate PlainCaches(m: map<Namespace, Cached>, bs: seq<Binding>, xmlns: Attribute) {
    && (forall ns :: ns in m ==> !m[ns].baroque && m[ns].defaultDecl != null && m[ns].defaultDecl != xmlns)
    && (forall b :: b in bs ==> b.ns != null && b.ns in m && b.decl == m[b.ns].defaultDecl)
  }

  lemma PlainIsPlainCaches(nn: seq<Namespace>, bs: seq<Binding>, xmlns: Attribute)
    ensures PlainNamespaces(nn, xmlns) && PlainBindings(bs, nn) <==> PlainCaches(Caches(nn), bs, xmlns)
  {
    hide CachedOf;
    forall ns | ns in nn
      ensures ns in Caches(nn) && Caches(nn)[ns] == CachedOf(ns)
      ensures CachedOf(ns).baroque == ns.baroque && CachedOf(ns).defaultDecl == ns.defaultDecl
    {
      CachedIs(ns);
    }
  }

  lemma CachedIs(ns: Namespace)
    ensures CachedOf(ns).baroque == ns.baroque && CachedOf(ns).defaultDecl == ns.defaultDecl
  {
  }

  /** Declaring a new namespace under a prefix of its own, or an old one again, is plain use. */
  lemma PlainDeclared(
    m: map<Namespace, Cached>, ns: Namespace, c: Cached, prefix: Option<CString>, serial: nat, xmlns: Attribute,
    bs: seq<Binding>)
    requires PlainCaches(m, bs, xmlns) && NamespaceDeclared(m, ns, c, prefix, serial, xmlns)
    requires prefix != Some([]) && (ns in m ==> UsesDefault(m[ns], prefix))
    ensures PlainCaches(m[ns := c], bs, xmlns)
  {
  }

  predicate XmlKeptIn(m: map<Namespace, Cached>) {
    forall ns :: ns in m && IsXml(ns) ==> !m[ns].baroque
  }

  lemma XmlStays(
    m: map<Namespace, Cached>, ns: Namespace, c: Cached, prefix: Option<CString>, serial: nat, xmlns: Attribute)
    requires XmlKeptIn(m) && NamespaceDeclared(m, ns, c, prefix, serial, xmlns)
    requires ns in m && IsXml(ns) ==> UsesDefault(m[ns], prefix)
    ensures XmlKeptIn(m[ns := c])
  {
    hide IsXml;
  }

  // ---------- Declarations are distinct ----------

  lemma {:induction false} CountTwice(bs: seq<Binding>, i: nat, j: nat, ns: Namespace)
    requires i < j < |bs| && bs[i].ns == ns && bs[j].ns == ns
    ensures Count(bs, ns) >= 2
  {
    var less := bs[..|bs| - 1];
    if j < |bs| - 1 {
      CountTwice(less, i, j, ns);
    } else {
      CountMember(less, ns);
      assert less[i].ns == ns;
    }
  }

  /** Attributes without a namespace are determined by class and name. */
  lemma SameName(aa: seq<Attribute>, a: Attribute, b: Attribute)
    requires SortedKeys(Keys(aa)) && a in aa && b in aa
    requires a.ns == null && b.ns == null && a.atype == b.atype && a.name == b.name
    ensures a == b
  {
    var i :| 0 <= i < |aa| && aa[i] == a;
    var j :| 0 <= j < |aa| && aa[j] == b;
    assert Keys(aa)[i] == Keys(aa)[j];
    assert KeyOrder(Keys(aa)[i], Keys(aa)[j]) == 0;
  }

  lemma DeclsDiffer(t: Registry, d: Attribute, e: Attribute)
    requires RegistryOk(t) && IsDecl(d, t) && IsDecl(e, t) && d != e && d != t.xmlns && e != t.xmlns
    ensures PrefixName(d) != PrefixName(e)
  {
    if PrefixName(d) == PrefixName(e) {
      assert d.name == XMLNS_COLON + d.name[6..] && e.name == XMLNS_COLON + e.name[6..];
      assert AttributeOk(d, t.namespaces) && AttributeOk(e, t.namespaces);
      SameName(t.attributes, d, e);
    }
  }

  lemma NamesDiffer(nn: seq<Namespace>, m: Namespace, n: Namespace)
    requires NamespacesOk(nn) && m in nn && n in nn && m.name == n.name
    ensures m == n
  {
    var i :| 0 <= i < |nn| && nn[i] == m;
    var j :| 0 <= j < |nn| && nn[j] == n;
  }

  /** What holds of a writer in plain use. */
  ghost predicate PlainState(t: Registry, bs: seq<Binding>)
    reads t.namespaces
  {
    && RegistryOk(t)
    && PlainNamespaces(t.namespaces, t.xmlns)
    && PlainBindings(bs, t.namespaces)
    && DefaultsDiffer(t.namespaces)
    && (forall ns :: ns in t.namespaces ==> NamespaceOk(ns, bs, t))
  }

  /** Two declarations of one scope agree on the prefix exactly if they agree on the namespace name. */
  lemma ScopeIsOneToOne(t: Registry, bs: seq<Binding>, b: Binding, c: Binding)
    requires PlainState(t, bs) && b in bs && c in bs
    ensures b.ns != null && c.ns != null
    ensures PrefixName(b.decl) == PrefixName(c.decl) <==> b.ns.name == c.ns.name
    ensures b.ns.name == c.ns.name ==> b == c
  {
    hide RegistryOk, CachesOk, PrefixName, IsDecl;
    assert NamespaceOk(b.ns, bs, t) && NamespaceOk(c.ns, bs, t);
    if b.ns.name == c.ns.name {
      RegistryNamespaces(t);
      NamesDiffer(t.namespaces, b.ns, c.ns);
    } else {
      DeclsDiffer(t, b.decl, c.decl);
    }
  }

  lemma RegistryNamespaces(t: Registry)
    requires RegistryOk(t)
    ensures NamespacesOk(t.namespaces)
  {
  }

  /** An inner declaration shares neither prefix nor namespace with an outer one. */
  lemma InnerIsNew(t: Registry, outer: seq<Binding>, own: seq<Binding>, b: Binding, c: Binding)
    requires PlainState(t, outer + own) && b in own && c in outer
    ensures b.ns != null && c.ns != null
    ensures PrefixName(b.decl) != PrefixName(c.decl) && b.ns.name != c.ns.name
  {
    hide RegistryOk, PrefixName, IsDecl, HasDefault;
    var bs := outer + own;
    var i :| 0 <= i < |outer| && outer[i] == c;
    var j :| 0 <= j < |own| && own[j] == b;
    assert bs[i] == c && bs[|outer| + j] == b;
    ScopeIsOneToOne(t, bs, b, c);
    if b.ns.name == c.ns.name {
      assert NamespaceOk(b.ns, bs, t);
      CountTwice(bs, i, |outer| + j, b.ns);
    }
  }

  // ---------- What is printed declares what is on the stack ----------

  lemma {:induction false} PrintedFrom(aa: seq<Attribute>, x: TagAttribute) returns (a: Attribute)
    requires x in PrintedAttributes(aa)
    ensures a in aa && a.provided && x == PrintedAttribute(a)
  {
    var last := |aa| - 1;
    if x in PrintedAttributes(aa[..last]) {
      a := PrintedFrom(aa[..last], x);
    } else {
      a := aa[last];
    }
  }

  lemma {:induction false} PrintedMember(aa: seq<Attribute>, a: Attribute)
    requires a in aa && a.provided
    ensures PrintedAttribute(a) in PrintedAttributes(aa)
  {
    var last := |aa| - 1;
    if aa[last] != a {
      assert a in aa[..last];
      PrintedMember(aa[..last], a);
    }
  }

  /** A printed declaration says what the binding says. */
  lemma PrintedDeclaration(b: Binding, t: Registry)
    requires RegistryOk(t) && IsDecl(b.decl, t) && b.decl != t.xmlns && b.ns != null
    requires b.decl.value == Escaped(InValue, b.ns.name)
    ensures var x := PrintedAttribute(b.decl);
            DeclaresPrefix(x) && Declaration(x) == (PrefixName(b.decl), b.ns.name)
  {
    ResolveEscaped(InValue, b.ns.name);
    ColonExtends(b.decl.name);
    assert AttributeOk(b.decl, t.namespaces);
  }

  lemma DeclaredByIsScope(t: Registry, bs: seq<Binding>, own: seq<Binding>)
    requires PlainState(t, bs) && TagInStep(t.attributes, bs, own)
    requires forall b :: b in own ==> b in bs
    ensures DeclaredBy(PrintedAttributes(t.attributes)) == ScopeOf(own)
  {
    hide CachesOk, RegistryOk, Escaped, PrefixName, IsDecl, TypeOf;
    var attrs := PrintedAttributes(t.attributes);
    forall d | d in DeclaredBy(attrs)
      ensures d in ScopeOf(own)
    {
      var x :| x in attrs && DeclaresPrefix(x) && Declaration(x) == d;
      var a := PrintedFrom(t.attributes, x);
      DeclaringAttribute(a, t);
      var b :| b in own && b.decl == a;
      assert NamespaceOk(b.ns, bs, t);
      PrintedDeclaration(b, t);
    }
    forall d | d in ScopeOf(own)
      ensures d in DeclaredBy(attrs)
    {
      var b :| b in own && b.ns != null && (PrefixName(b.decl), b.ns.name) == d;
      assert NamespaceOk(b.ns, bs, t);
      PrintedMember(t.attributes, b.decl);
      PrintedDeclaration(b, t);
    }
  }

  lemma DeclaringAttribute(a: Attribute, t: Registry)
    requires RegistryOk(t) && a in t.attributes && KeyOf(WantedOf(a)).atype == NsDecl && XMLNS_COLON < a.name
    ensures IsDeclaration(a)
  {
    assert AttributeOk(a, t.namespaces);
  }

  // ---------- Tags are scoped ----------

  /** The cached declaration of a namespace in effect gives a prefix that stands for it. */
  lemma DeclarationStands(t: Registry, bs: seq<Binding>, ns: Namespace)
    requires PlainState(t, bs) && ns in t.namespaces && (Count(bs, ns) > 0 || IsXml(ns))
    ensures ns.declaration != null && Stands(ScopeOf(bs), Some(PrefixName(ns.declaration)), ns.name)
  {
    hide RegistryOk, PrefixName, IsDecl, HasDefault, PlainBindings, DefaultsDiffer, PlainNamespaces;
    assert NamespaceOk(ns, bs, t);
    var prefix := PrefixName(ns.declaration);
    if Count(bs, ns) > 0 {
      InnermostMember(bs, ns);
      var b := Binding(ns, ns.declaration);
      forall d | d in ScopeOf(bs) && d.0 == prefix
        ensures d.1 == ns.name
      {
        var c :| c in bs && c.ns != null && (PrefixName(c.decl), c.ns.name) == d;
        ScopeIsOneToOne(t, bs, b, c);
      }
    } else {
      XmlPrefix(t, bs, ns);
      forall d | d in ScopeOf(bs)
        ensures d.0 != prefix
      {
        var c :| c in bs && c.ns != null && (PrefixName(c.decl), c.ns.name) == d;
        XmlPrefixIsItsOwn(t, bs, ns, c);
      }
    }
  }

  lemma XmlPrefix(t: Registry, bs: seq<Binding>, xml: Namespace)
    requires PlainState(t, bs) && xml in t.namespaces && IsXml(xml)
    ensures xml.declaration != null && PrefixName(xml.declaration) == XML_PREFIX && xml.declaration == xml.defaultDecl
  {
    hide RegistryOk, IsDecl;
    assert NamespaceOk(xml, bs, t);
    assert XMLNS_XML == XMLNS_COLON + XML_PREFIX;
  }

  lemma XmlPrefixIsItsOwn(t: Registry, bs: seq<Binding>, xml: Namespace, c: Binding)
    requires PlainState(t, bs) && xml in t.namespaces && IsXml(xml) && Count(bs, xml) == 0 && c in bs
    ensures PrefixName(c.decl) != XML_PREFIX
  {
    hide RegistryOk, IsDecl, CachesOk, PrefixName;
    XmlPrefix(t, bs, xml);
    assert NamespaceOk(xml, bs, t) && NamespaceOk(c.ns, bs, t);
    CountMember(bs, xml);
    assert c.ns != xml;
    DeclsDiffer(t, c.decl, xml.defaultDecl);
  }

  /** Attributes of the tag: prefixed ones are in scope, and the default namespace is left alone. */
  lemma AttributeIsScoped(t: Registry, bs: seq<Binding>, own: seq<Binding>, x: TagAttribute)
    requires PlainState(t, bs) && TagInStep(t.attributes, bs, own) && x in PrintedAttributes(t.attributes)
    requires forall b :: b in own ==> b in bs
    ensures !(x.key.atype == NsDecl && x.key.name == XMLNS)
    ensures if x.key.atype == Prefixed then Stands(ScopeOf(bs), x.prefix, x.key.uri) else x.prefix.None?
  {
    hide PrefixName, IsDecl, CachesOk, Stands, DefaultsDiffer;
    var a := PrintedFrom(t.attributes, x);
    assert AttributeOk(a, t.namespaces);
    if a.ns != null {
      DeclarationStands(t, bs, a.ns);
    } else if a.atype == NsDecl && a.name == XMLNS {
      SameName(t.attributes, a, t.xmlns);
      ProvidedIsPrefixed(t, bs, own, a);
    }
  }

  lemma ProvidedIsPrefixed(t: Registry, bs: seq<Binding>, own: seq<Binding>, a: Attribute)
    requires PlainState(t, bs) && TagInStep(t.attributes, bs, own) && forall b :: b in own ==> b in bs
    requires a in t.attributes && a.provided && IsDeclaration(a)
    ensures a != t.xmlns
  {
    hide RegistryOk, CachesOk, DefaultsDiffer;
    var b :| b in own && b.decl == a;
    assert b.ns in t.namespaces;
  }

  /** In plain use every start tag is scoped as Namespaces in XML asks, and extends the scope by what is on the stack. */
  lemma PlainTagIsScoped(t: Registry, outer: seq<Binding>, own: seq<Binding>, e: Element, tag: Event)
    requires PlainState(t, outer + own) && TagInStep(t.attributes, outer + own, own)
    requires e.ns != null ==> e.ns in t.namespaces && (Count(outer + own, e.ns) > 0 || IsXml(e.ns))
    requires tag == StartTag(
               if e.ns == null || e.ns.declaration == null then None else Some(PrefixName(e.ns.declaration)),
               if e.ns == null then None else Some(e.ns.name), e.kind, PrintedAttributes(t.attributes))
    ensures TagIsScoped(ScopeOf(outer), tag)
    ensures ScopeOf(outer) + DeclaredBy(tag.attributes) == ScopeOf(outer + own)
  {
    hide PrefixName, TagInStep, PlainState, Stands, PrintedAttributes, Declaration;
    var bs := outer + own;
    DeclaredByIsScope(t, bs, own);
    assert ScopeOf(outer) + ScopeOf(own) == ScopeOf(bs);
    if e.ns != null {
      DeclarationStands(t, bs, e.ns);
    }
    forall x | x in tag.attributes
      ensures !(x.key.atype == NsDecl && x.key.name == XMLNS)
      ensures if x.key.atype == Prefixed then Stands(ScopeOf(bs), x.prefix, x.key.uri) else x.prefix.None?
    {
      AttributeIsScoped(t, bs, own, x);
    }
    DeclarationsAreNew(t, outer, own);
  }

  lemma DeclarationsAreNew(t: Registry, outer: seq<Binding>, own: seq<Binding>)
    requires PlainState(t, outer + own)
    ensures NewDeclarations(ScopeOf(outer), ScopeOf(own))
  {
    hide PrefixName, PlainState;
    forall d, e | d in ScopeOf(own) && e in ScopeOf(outer)
      ensures d.0 != e.0 && d.1 != e.1
    {
      var b :| b in own && b.ns != null && (PrefixName(b.decl), b.ns.name) == d;
      var c :| c in outer && c.ns != null && (PrefixName(c.decl), c.ns.name) == e;
      InnerIsNew(t, outer, own, b, c);
    }
    forall d, e | d in ScopeOf(own) && e in ScopeOf(own)
      ensures d.0 == e.0 <==> d.1 == e.1
    {
      var b :| b in own && b.ns != null && (PrefixName(b.decl), b.ns.name) == d;
      var c :| c in own && c.ns != null && (PrefixName(c.decl), c.ns.name) == e;
      ScopeIsOneToOne(t, outer + own, b, c);
    }
  }

  // ---------- Keeping in step ----------

  /** Which attributes are provided, and their values: all that TagInStep depends on. */
  ghost function ProvidedOf(aa: seq<Attribute>): set<Attribute>
    reads aa
  {
    set a | a in aa && a.provided
  }

  ghost function ValuesOf(aa: seq<Attribute>): map<Attribute, bytes>
    reads aa
  {
    map a | a in aa :: a.value
  }

  predicate StepOf(provided: set<Attribute>, values: map<Attribute, bytes>, bs: seq<Binding>, own: seq<Binding>) {
    && (forall b :: b in own ==>
          b.ns != null && b.decl in provided && b.decl in values && values[b.decl] == Escaped(InValue, b.ns.name))
    && (forall a :: a in provided && IsDeclaration(a) ==> Declares(own, a))
    && (forall a :: a in provided && a.ns != null ==> Count(bs, a.ns) > 0 || IsXml(a.ns))
  }

  lemma StepIsTagInStep(aa: seq<Attribute>, bs: seq<Binding>, own: seq<Binding>)
    ensures TagInStep(aa, bs, own) <==> StepOf(ProvidedOf(aa), ValuesOf(aa), bs, own)
  {
    hide Escaped, IsDeclaration, Declares, Count, IsXml;
  }

  lemma CountGrows(bs: seq<Binding>, b: Binding, ns: Namespace)
    requires Count(bs, ns) > 0
    ensures Count(bs + [b], ns) > 0
  {
    InnermostPush(bs, b, ns);
  }

  /** A new declaration of the current element, printed by an attribute of its own. */
  lemma StaysInStep(
    p: set<Attribute>, p': set<Attribute>, v: map<Attribute, bytes>, v': map<Attribute, bytes>,
    bs: seq<Binding>, own: seq<Binding>, b: Binding)
    requires StepOf(p, v, bs, own) && b.ns != null && b.decl.ns == null
    requires p' == p + {b.decl} && v'.Keys == v.Keys && b.decl in v'
    requires v'[b.decl] == Escaped(InValue, b.ns.name)
    requires forall a :: a in v && a != b.decl ==> v'[a] == v[a]
    requires forall c :: c in own ==> c.decl != b.decl
    ensures StepOf(p', v', bs + [b], own + [b])
  {
    hide Escaped, IsXml, Count, IsDeclaration;
    forall a | a in p' && IsDeclaration(a)
      ensures Declares(own + [b], a)
    {
      if a == b.decl {
        assert b in own + [b];
      } else {
        var c :| c in own && c.decl == a;
        assert c in own + [b];
      }
    }
    forall a | a in p' && a.ns != null
      ensures Count(bs + [b], a.ns) > 0 || IsXml(a.ns)
    {
      if Count(bs, a.ns) > 0 {
        CountGrows(bs, b, a.ns);
      }
    }
  }

  /** In plain use a namespace that is not declared yet shares its attribute with no declaration. */
  lemma NotYetDeclared(bs: seq<Binding>, own: seq<Binding>, ns: Namespace, nn: seq<Namespace>)
    requires PlainBindings(bs, nn) && DefaultsDiffer(nn) && ns in nn && ns.defaultDecl != null
    requires Count(bs, ns) == 0 && forall c :: c in own ==> c in bs
    ensures forall c :: c in own ==> c.decl != ns.defaultDecl
  {
    CountMember(bs, ns);
  }

  lemma OwnAreBindings(frames: seq<Frame>)
    requires frames != []
    ensures forall c :: c in Top(frames).bindings ==> c in AllBindings(frames)
  {
  }

  lemma PlainBindingsPush(bs: seq<Binding>, ns: Namespace, nn: seq<Namespace>)
    requires PlainBindings(bs, nn) && ns in nn && ns.defaultDecl != null
    ensures PlainBindings(bs + [Binding(ns, ns.defaultDecl)], nn)
  {
  }

  /** In plain use an attempt to declare a namespace leaves it declared. */
  lemma PlainFate(ns: Namespace, decl: Attribute, declCount: int, was: seq<Frame>, now: seq<Frame>, xmlns: Attribute)
    requires was != [] && declCount == PreWired(ns) + Count(AllBindings(was), ns) && decl != xmlns
    requires FramesAfter(FateOf(ns, decl, declCount, false, was, xmlns), was, now, ns, decl)
    ensures Count(AllBindings(now), ns) > 0 || IsXml(ns)
    ensures FateOf(ns, decl, declCount, false, was, xmlns) == Declared ==> Count(AllBindings(was), ns) == 0
  {
    CountConcat(AllBindings(Below(was)), Top(was).bindings, ns);
    if now != was {
      AllBindingsPushBinding(was, Binding(ns, decl));
      InnermostPush(AllBindings(was), Binding(ns, decl), ns);
    }
  }

  /** How the provided attributes and their values change with an attempt of that fate. */
  predicate StepAfter(
    fate: Fate, ns: Namespace, decl: Attribute,
    p: set<Attribute>, p': set<Attribute>, v: map<Attribute, bytes>, v': map<Attribute, bytes>)
  {
    if fate == Declared then
      && p' == p + {decl} && v'.Keys == v.Keys && decl in v'
      && v'[decl] == Escaped(InValue, ns.name)
      && forall a :: a in v && a != decl ==> v'[a] == v[a]
    else p' == p && v' == v
  }

  /** Declaring a namespace by its default prefix is plain use, and keeps the start tag in step. */
  lemma DefaultDeclared(
    ns: Namespace, nn: seq<Namespace>, t: Registry, was: seq<Frame>, now: seq<Frame>, declCount: int, fate: Fate,
    p: set<Attribute>, p': set<Attribute>, v: map<Attribute, bytes>, v': map<Attribute, bytes>)
    requires was != [] && ns in nn && ns.defaultDecl != null && ns.defaultDecl != t.xmlns && ns.defaultDecl.ns == null
    requires declCount == PreWired(ns) + Count(AllBindings(was), ns)
    requires fate == FateOf(ns, ns.defaultDecl, declCount, false, was, t.xmlns)
    requires FramesAfter(fate, was, now, ns, ns.defaultDecl) && StepAfter(fate, ns, ns.defaultDecl, p, p', v, v')
    requires PlainBindings(AllBindings(was), nn) && DefaultsDiffer(nn)
    requires StepOf(p, v, AllBindings(was), Top(was).bindings)
    ensures now != [] && PlainBindings(AllBindings(now), nn)
    ensures StepOf(p', v', AllBindings(now), Top(now).bindings)
    ensures Count(AllBindings(now), ns) > 0 || IsXml(ns)
  {
    hide PlainBindings, DefaultsDiffer, StepOf, AllBindings, PreWired, IsXml, FateOf, Escaped, Count;
    PlainFate(ns, ns.defaultDecl, declCount, was, now, t.xmlns);
    if fate == Declared {
      var b := Binding(ns, ns.defaultDecl);
      AllBindingsPushBinding(was, b);
      PlainBindingsPush(AllBindings(was), ns, nn);
      OwnAreBindings(was);
      NotYetDeclared(AllBindings(was), Top(was).bindings, ns, nn);
      StaysInStep(p, p', v, v', AllBindings(was), Top(was).bindings, b);
    }
  }

  lemma DeclIsDeclaration(d: Attribute, t: Registry)
    requires RegistryOk(t) && IsDecl(d, t)
    ensures IsDeclaration(d)
  {
  }

  lemma OwnAreDeclarations(frames: seq<Frame>, t: Registry)
    requires frames != [] && FramesOk(frames, t) && RegistryOk(t)
    ensures forall b :: b in Top(frames).bindings ==> IsDeclaration(b.decl)
  {
    OwnAreBindings(frames);
    forall b | b in Top(frames).bindings
      ensures IsDeclaration(b.decl)
    {
      assert BindingOk(b, t);
    }
  }

  /** An ordinary attribute gets a value. */
  lemma StepValue(
    p: set<Attribute>, v: map<Attribute, bytes>, v': map<Attribute, bytes>, bs: seq<Binding>, own: seq<Binding>, a: Attribute)
    requires StepOf(p, v, bs, own) && !IsDeclaration(a)
    requires forall b :: b in own ==> IsDeclaration(b.decl)
    requires v'.Keys == v.Keys && forall x :: x in v && x != a ==> v'[x] == v[x]
    ensures StepOf(p, v', bs, own)
  {
    hide Escaped, Count, IsXml, IsDeclaration, Declares;
  }

  /** An ordinary attribute, whose namespace is in effect, is provided. */
  lemma StepProvided(p: set<Attribute>, v: map<Attribute, bytes>, bs: seq<Binding>, own: seq<Binding>, a: Attribute)
    requires StepOf(p, v, bs, own) && !IsDeclaration(a)
    requires a.ns != null ==> Count(bs, a.ns) > 0 || IsXml(a.ns)
    ensures StepOf(p + {a}, v, bs, own)
  {
    hide Escaped, Count, IsXml, IsDeclaration, Declares;
  }

  /** In plain use the default namespace is never declared. */
  lemma {:induction false} PlainHasNoDefault(bs: seq<Binding>, nn: seq<Namespace>, xmlns: Attribute)
    requires PlainBindings(bs, nn) && PlainNamespaces(nn, xmlns)
    ensures LastBy(bs, xmlns) == None
  {
    if bs != [] {
      assert bs[|bs| - 1] in bs;
      PlainHasNoDefault(bs[..|bs| - 1], nn, xmlns);
    }
  }

  lemma PlainDeclaration(t: Registry, bs: seq<Binding>, ns: Namespace)
    requires PlainState(t, bs) && ns in t.namespaces && (Count(bs, ns) > 0 || IsXml(ns))
    ensures ns.declaration != null && ns.declaration != t.xmlns
  {
    hide RegistryOk, IsDecl, DefaultsDiffer;
    assert NamespaceOk(ns, bs, t);
    if Count(bs, ns) > 0 {
      InnermostMember(bs, ns);
      assert Binding(ns, ns.declaration) in bs;
    }
  }

  /** After a plain start tag the scopes are again those of the open elements. */
  lemma ScopedStartTag(t: Registry, events: seq<Event>, frames: seq<Frame>, tag: Event)
    requires frames != [] && ScopedAs(events, Below(frames))
    requires PlainState(t, AllBindings(frames)) && TagInStep(t.attributes, AllBindings(frames), Top(frames).bindings)
    requires var ns := Top(frames).element.ns;
             && (ns != null ==> ns in t.namespaces && (Count(AllBindings(frames), ns) > 0 || IsXml(ns)))
             && tag == StartTag(
                  if ns == null || ns.declaration == null then None else Some(PrefixName(ns.declaration)),
                  if ns == null then None else Some(ns.name), Top(frames).element.kind, PrintedAttributes(t.attributes))
    ensures ScopedAs(events + [tag], frames)
  {
    hide PlainState, TagInStep, PrefixName, TagIsScoped, PrintedAttributes, Count, IsXml, Scopes, ScopeOf, DeclaredBy;
    var outer, own := AllBindings(Below(frames)), Top(frames).bindings;
    PlainTagIsScoped(t, outer, own, Top(frames).element, tag);
    var scopes := Scopes(events).value;
    CurrentScopeIs(scopes, Below(frames));
    ScopesPush(events, tag);
    var scopes' := scopes + [ScopeOf(AllBindings(frames))];
    assert scopes'[..|scopes'| - 1] == scopes;
  }

  lemma ScopedEndTag(events: seq<Event>, frames: seq<Frame>, tag: Event)
    requires frames != [] && ScopedAs(events, frames) && tag.EndTag?
    ensures ScopedAs(events + [tag], Below(frames))
  {
    hide Scopes, ScopeOf, AllBindings;
    ScopesPush(events, tag);
  }

  lemma ScopedOther(events: seq<Event>, frames: seq<Frame>, e: Event)
    requires ScopedAs(events, frames) && !e.StartTag? && !e.EndTag?
    ensures ScopedAs(events + [e], frames)
  {
    hide Scopes, MatchesScopes;
    ScopesPush(events, e);
  }

  lemma PlainBindingsBelow(frames: seq<Frame>, nn: seq<Namespace>)
    requires frames != []
    ensures PlainBindings(AllBindings(frames), nn) ==> PlainBindings(AllBindings(Below(frames)), nn)
  {
  }
}
