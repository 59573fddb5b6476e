/**
 Whole runs of the writer: any sequence of calls that all succeed writes the document
 that was asked for.
 */
module WriterRuns {
  import opened Options
  import opened Bytes
  import opened StatusCodes
  import opened Utf8
  import opened Escape
  import opened Tables
  import opened Events
  import opened WriterState
  import opened Scoping
  import opened Requests
  import opened Scenes
  import opened GenxWriter

  /** The calls of the interface; records are named by what they were declared with. */
  datatype Call =
    | DeclareNamespace(uri: CString, prefix: Option<CString>)
    | DeclareElement(space: Option<CString>, kind: CString)
    | DeclareAttribute(space: Option<CString>, name: CString)
    | StartDocument
    | StartElement(space: Option<CString>, kind: CString)
    | AddNamespace(uri: CString, prefix: Option<CString>)
    | UnsetDefaultNamespace
    | AddAttribute(space: Option<CString>, name: CString, value: Option<CString>)
    | EndElement
    | AddText(text: CString)
    | AddCharacter(c: int)
    | AddComment(text: CString)
    | EndDocument

  // ---------- What the calls ask for ----------

  function AttributeKey(space: Option<bytes>, name: bytes): Key {
    match space
    case Some(uri) => Key(Prefixed, uri, name)
    case None => Key(TypeOf(null, name), [], name)
  }

  /** One more call. */
  function Told(said: seq<Action>, call: Call): seq<Action> {
    match call
    case StartDocument => []
    case StartElement(space, kind) => said + [Open(space, kind, {})]
    case AddAttribute(space, name, Some(value)) =>
      var key := AttributeKey(space, name);
      if DeclaresNamespace(key) then said else Furnished(said, (key, Escaped(InValue, value)))
    case EndElement => said + [Close]
    case AddText(text) => said + [Text(Escaped(InText, text))]
    case AddCharacter(c) => if IsXmlChar(c) then said + [Text(Escaped(InText, Encode(c)))] else said
    case AddComment(text) => said + [Remark(text)]
    case _ => said
  }

  /** The actions that a sequence of calls asks for, since the document was started. */
  function ToldAll(calls: seq<Call>): seq<Action> {
    if calls == [] then [] else Told(ToldAll(calls[..|calls| - 1]), calls[|calls| - 1])
  }

  /** Does the call give the pre-wired xml namespace another prefix? */
  predicate Rebinds(call: Call) {
    match call
    case DeclareNamespace(uri, prefix) => RebindsXml(uri, prefix)
    case AddNamespace(uri, prefix) => RebindsXml(uri, prefix)
    case _ => false
  }

  predicate KeepsXml(calls: seq<Call>) {
    forall call :: call in calls ==> !Rebinds(call)
  }

  /** The default prefixes that calls give: namespace names with their prefixes, and the next number for a made-up one. */
  datatype Defaults = Defaults(prefixes: seq<(bytes, bytes)>, serial: nat)

  function PrefixFor(prefixes: seq<(bytes, bytes)>, uri: bytes): (p: Option<bytes>)
    ensures p.Some? ==> (uri, p.value) in prefixes
    ensures p.None? ==> forall d :: d in prefixes ==> d.0 != uri
  {
    if prefixes == [] then None
    else if prefixes[|prefixes| - 1].0 == uri then Some(prefixes[|prefixes| - 1].1)
    else PrefixFor(prefixes[..|prefixes| - 1], uri)
  }

  function DefaultsAfter(d: Defaults, call: Call): Defaults {
    match call
    case DeclareNamespace(uri, prefix) =>
      if PrefixFor(d.prefixes, uri).Some? then d
      else
        Defaults(
          d.prefixes + [(uri, ChosenPrefix(prefix, d.serial))],
          d.serial + if prefix.None? then 1 else 0)
    case _ => d
  }

  function DefaultsOf(calls: seq<Call>): Defaults {
    if calls == [] then Defaults([(XML_URI, XML_PREFIX)], 1)
    else DefaultsAfter(DefaultsOf(calls[..|calls| - 1]), calls[|calls| - 1])
  }

  /** Does the call use a namespace under its default prefix only, and no empty one? */
  predicate UsesItsDefault(d: Defaults, uri: bytes, prefix: Option<bytes>) {
    prefix.None? || PrefixFor(d.prefixes, uri) == None || PrefixFor(d.prefixes, uri) == prefix
  }

  predicate PlainCall(d: Defaults, call: Call) {
    match call
    case DeclareNamespace(uri, prefix) => prefix != Some([]) && UsesItsDefault(d, uri, prefix)
    case AddNamespace(uri, prefix) => UsesItsDefault(d, uri, prefix)
    case AddAttribute(space, name, _) => space.Some? || !IsDeclarationName(name)
    case _ => true
  }

  /** Every namespace is used under a non-empty prefix of its own only, and no declaration is written by hand. */
  predicate PlainCalls(calls: seq<Call>) {
    calls == [] || (
      && PlainCalls(calls[..|calls| - 1])
      && PlainCall(DefaultsOf(calls[..|calls| - 1]), calls[|calls| - 1]))
  }

  /** The writer's records have those default prefixes. */
  ghost predicate Agrees(w: Writer, d: Defaults)
    reads w`namespaces, w`nextPrefix, w.namespaces`defaultDecl
  {
    && w.nextPrefix == d.serial
    && |w.namespaces| == |d.prefixes|
    && forall i :: 0 <= i < |d.prefixes| ==> HasPrefix(w.namespaces[i], d.prefixes[i])
  }

  ghost predicate HasPrefix(n: Tables.Namespace, p: (bytes, bytes))
    reads n`defaultDecl
  {
    && n.name == p.0
    && n.defaultDecl != null && n.defaultDecl.name == XMLNS_COLON + p.1
  }

  /** Does the call use namespaces under their default prefixes only, none of them empty? */
  ghost predicate IsPlain(w: Writer, call: Call)
    reads w, w.namespaces
  {
    match call
    case DeclareNamespace(uri, prefix) => prefix != Some([]) && DefaultUsed(w.namespaces, uri, prefix)
    case AddNamespace(uri, prefix) => DefaultUsed(w.namespaces, uri, prefix)
    case AddAttribute(space, name, _) => space.Some? || !IsDeclarationName(name)
    case _ => true
  }

  ghost predicate DefaultUsed(nn: seq<Namespace>, uri: bytes, prefix: Option<bytes>)
    reads nn
  {
    forall n :: n in nn && n.name == uri ==> UsesDefault(CachedOf(n), prefix)
  }

  lemma AgreeingDefault(nn: seq<Tables.Namespace>, d: Defaults, uri: bytes, prefix: Option<bytes>)
    requires NamespacesOk(nn) && |nn| == |d.prefixes|
    requires forall i :: 0 <= i < |d.prefixes| ==> HasPrefix(nn[i], d.prefixes[i])
    requires UsesItsDefault(d, uri, prefix)
    ensures DefaultUsed(nn, uri, prefix)
  {
    hide IsText, IsXml;
    forall n | n in nn && n.name == uri
      ensures UsesDefault(CachedOf(n), prefix)
    {
      var i :| 0 <= i < |nn| && nn[i] == n;
      assert d.prefixes[i] in d.prefixes && HasPrefix(nn[i], d.prefixes[i]);
      var p := PrefixFor(d.prefixes, uri).value;
      var j :| 0 <= j < |nn| && d.prefixes[j] == (uri, p);
      assert HasPrefix(nn[j], d.prefixes[j]);
      assert i == j;
    }
  }

  /** What is plain to the caller is plain to the writer. */
  lemma PlainCallIsPlain(w: Writer, d: Defaults, call: Call)
    requires w.Valid() && Agrees(w, d) && PlainCall(d, call)
    ensures IsPlain(w, call)
  {
    hide UsesItsDefault, DefaultUsed, HasPrefix;
    TablesAreOk(w);
    RegistryNamespaces(w.Records());
    match call {
      case DeclareNamespace(uri, prefix) => AgreeingDefault(w.namespaces, d, uri, prefix);
      case AddNamespace(uri, prefix) => AgreeingDefault(w.namespaces, d, uri, prefix);
      case _ =>
    }
  }

  lemma NewlyAgreed(w: Writer, d: Defaults, was: seq<Tables.Namespace>, ns: Tables.Namespace, uri: CString, prefix: Option<CString>)
    requires prefix != Some([]) && PrefixFor(d.prefixes, uri).None? && w.namespaces == was + [ns] && ns.name == uri
    requires |was| == |d.prefixes| && forall i :: 0 <= i < |was| ==> HasPrefix(was[i], d.prefixes[i])
    requires NewlyCached(CachedOf(ns), ChosenPrefix(prefix, d.serial), w.xmlnsEquals)
    requires w.nextPrefix == d.serial + if prefix.None? then 1 else 0
    ensures Agrees(w, DefaultsAfter(d, DeclareNamespace(uri, prefix)))
  {
    assert HasPrefix(ns, (uri, ChosenPrefix(prefix, d.serial)));
  }

  /** Calls that finish the start tag that is being gathered, if there is one. */
  predicate FinishesTag(call: Call) {
    call.StartElement? || call.EndElement? || call.AddText? || call.AddCharacter? || call.AddComment?
  }

  lemma FinishesTagIf(call: Call)
    ensures FinishesTag(call) <==>
              call.StartElement? || call.EndElement? || call.AddText? || call.AddCharacter? || call.AddComment?
  {
  }

  // ---------- One call ----------

  /** What a successful call keeps, and what it adds. */
  twostate predicate Performed(w: Writer, call: Call, out: Sender, d: Defaults)
    requires old(w.Valid())
    reads w, w.namespaces, w.attributes, out, if w.sender == null then {} else {w.sender}
  {
    && w.Valid() && (w.sender == null || w.sender == out)
    && (forall n :: n in w.namespaces ==> n in old(w.namespaces) || fresh(n))
    && (forall a :: a in w.attributes ==> a in old(w.attributes) || fresh(a))
    && w.Said() == Told(old(w.Said()), call)
    && (old(w.Tried()) ==> w.Tried())
    && (old(w.Clean() && w.XmlKept()) && !Rebinds(call) ==> w.Clean() && w.XmlKept())
    && (old(w.Scoped() && IsPlain(w, call)) ==> w.Scoped())
    && (old(Agrees(w, d)) && PlainCall(d, call) ==> Agrees(w, DefaultsAfter(d, call)))
  }

  /** The namespace with that name, if the caller has got one. */
  method Namespace(w: Writer, space: Option<CString>) returns (found: bool, ns: Tables.Namespace?)
    requires w.Valid()
    ensures found ==> UriOf(ns) == space && (ns != null ==> ns in w.namespaces)
  {
    ns := null;
    if space.Some? {
      ns := w.FindNamespace(space.value);
    }
    found := space.Some? ==> ns != null;
  }

  /** The attribute with that name, if the caller has got one. */
  method FindAttribute(w: Writer, ns: Tables.Namespace?, name: bytes) returns (a: Attribute?)
    ensures a != null ==> a in w.attributes && a.ns == ns && a.name == name
  {
    for i := 0 to |w.attributes| {
      if w.attributes[i].ns == ns && w.attributes[i].name == name {
        return w.attributes[i];
      }
    }
    a := null;
  }

  lemma XmlKeptIsXmlKeptIn(w: Writer)
    ensures w.XmlKept() <==> XmlKeptIn(Caches(w.namespaces))
  {
    hide IsXml, CachedOf;
    forall ns | ns in w.namespaces
      ensures ns in Caches(w.namespaces) && Caches(w.namespaces)[ns] == CachedOf(ns) && CachedOf(ns).baroque == ns.baroque
    {
      CachedIs(ns);
    }
  }

  /** The default prefix of a known namespace is used by such a call. */
  lemma UsesKnownDefault(w: Writer, uri: bytes, prefix: Option<CString>)
    requires w.Valid()
    ensures w.XmlKept() && !RebindsXml(uri, prefix) ==>
              forall n :: n in w.namespaces && n.name == uri && IsXml(n) ==> UsesDefault(CachedOf(n), prefix)
  {
    hide Writer.Valid, Writer.XmlKept, UsesDefault, CachedOf;
    if w.XmlKept() && !RebindsXml(uri, prefix) {
      forall n | n in w.namespaces && n.name == uri && IsXml(n)
        ensures UsesDefault(CachedOf(n), prefix)
      {
        w.XmlDefault(n);
        NoPrefixUsesDefault(CachedOf(n));
      }
    }
  }

  lemma NoPrefixUsesDefault(c: Cached)
    ensures UsesDefault(c, None)
  {
  }

  /** What is kept of plain use, and of the xml namespace, when a namespace is declared. */
  lemma DeclaredKeeps(
    m: map<Tables.Namespace, Cached>, ns: Tables.Namespace, c: Cached, prefix: Option<CString>, serial: nat, xmlns: Attribute,
    bs: seq<ElementStack.Binding>)
    requires NamespaceDeclared(m, ns, c, prefix, serial, xmlns)
    ensures XmlKeptIn(m) && (ns in m && IsXml(ns) ==> UsesDefault(m[ns], prefix)) ==> XmlKeptIn(m[ns := c])
    ensures PlainCaches(m, bs, xmlns) && prefix != Some([]) && (ns in m ==> UsesDefault(m[ns], prefix)) ==>
              PlainCaches(m[ns := c], bs, xmlns)
  {
    hide NamespaceDeclared, UsesDefault, IsXml, PlainCaches, XmlKeptIn;
    if XmlKeptIn(m) && (ns in m && IsXml(ns) ==> UsesDefault(m[ns], prefix)) {
      XmlStays(m, ns, c, prefix, serial, xmlns);
    }
    if PlainCaches(m, bs, xmlns) && prefix != Some([]) && (ns in m ==> UsesDefault(m[ns], prefix)) {
      PlainDeclared(m, ns, c, prefix, serial, xmlns, bs);
    }
  }

  lemma CachesKeys(nn: seq<Tables.Namespace>)
    ensures forall n :: n in Caches(nn) ==> n in nn && Caches(nn)[n] == CachedOf(n)
    ensures forall n :: n in nn ==> n in Caches(nn)
  {
  }

  /** Cached fields that are the same give the same default prefixes. */
  lemma StillAgrees(w: Writer, d: Defaults, m: map<Tables.Namespace, Cached>)
    requires Caches(w.namespaces) == m && w.nextPrefix == d.serial && |w.namespaces| == |d.prefixes|
    requires forall i :: 0 <= i < |d.prefixes| ==> HadPrefix(m, w.namespaces[i], d.prefixes[i])
    ensures Agrees(w, d)
  {
    forall i | 0 <= i < |d.prefixes|
      ensures HasPrefix(w.namespaces[i], d.prefixes[i])
    {
      assert HadPrefix(m, w.namespaces[i], d.prefixes[i]);
      CachesMember(w.namespaces, w.namespaces[i]);
    }
  }

  predicate HadPrefix(m: map<Tables.Namespace, Cached>, n: Tables.Namespace, p: (bytes, bytes)) {
    n in m && n.name == p.0 && m[n].defaultDecl != null && m[n].defaultDecl.name == XMLNS_COLON + p.1
  }

  lemma AgreesMeansHad(w: Writer, d: Defaults)
    ensures Agrees(w, d) ==>
              forall i :: 0 <= i < |d.prefixes| ==> HadPrefix(Caches(w.namespaces), w.namespaces[i], d.prefixes[i])
  {
    forall i | 0 <= i < |w.namespaces|
      ensures w.namespaces[i] in Caches(w.namespaces) && Caches(w.namespaces)[w.namespaces[i]] == CachedOf(w.namespaces[i])
    {
      CachesMember(w.namespaces, w.namespaces[i]);
    }
    if Agrees(w, d) {
      forall i | 0 <= i < |d.prefixes|
        ensures HadPrefix(Caches(w.namespaces), w.namespaces[i], d.prefixes[i])
      {
        assert HasPrefix(w.namespaces[i], d.prefixes[i]);
      }
    }
  }

  /** A namespace that was known had its prefix in the list, and a new one had not. */
  lemma KnownByName(m: map<Tables.Namespace, Cached>, was: seq<Tables.Namespace>, now: seq<Tables.Namespace>, d: Defaults, ns: Tables.Namespace)
    requires NamespacesOk(now) && ns in now && |was| == |d.prefixes|
    requires now == if ns in was then was else was + [ns]
    requires forall i :: 0 <= i < |d.prefixes| ==> HadPrefix(m, was[i], d.prefixes[i])
    ensures ns in was <==> PrefixFor(d.prefixes, ns.name).Some?
  {
    hide IsText, IsXml;
    if ns in was {
      var i :| 0 <= i < |was| && was[i] == ns;
      assert HadPrefix(m, was[i], d.prefixes[i]) && d.prefixes[i] in d.prefixes;
    }
    if PrefixFor(d.prefixes, ns.name).Some? {
      var j :| 0 <= j < |was| && d.prefixes[j] == (ns.name, PrefixFor(d.prefixes, ns.name).value);
      assert HadPrefix(m, was[j], d.prefixes[j]);
      assert was[j] in now;
      NamesDiffer(now, was[j], ns);
    }
  }

  /** What the caller expects of default prefixes comes true. */
  lemma DeclaredAgrees(
    w: Writer, d: Defaults, m: map<Tables.Namespace, Cached>, was: seq<Tables.Namespace>, ns: Tables.Namespace, uri: CString,
    prefix: Option<CString>)
    requires w.Valid() && |was| == |d.prefixes| && PlainCall(d, DeclareNamespace(uri, prefix))
    requires forall i :: 0 <= i < |d.prefixes| ==> HadPrefix(m, was[i], d.prefixes[i])
    requires ns in w.namespaces && ns.name == uri && w.namespaces == if ns in was then was else was + [ns]
    requires Caches(w.namespaces) == m[ns := CachedOf(ns)] && (ns in m <==> ns in was)
    requires NamespaceDeclared(m, ns, CachedOf(ns), prefix, d.serial, w.xmlnsEquals)
    requires ns in m ==> UsesDefault(m[ns], prefix)
    requires w.nextPrefix == d.serial + if prefix.None? && ns !in was then 1 else 0
    ensures Agrees(w, DefaultsAfter(d, DeclareNamespace(uri, prefix)))
  {
    TablesAreOk(w);
    RegistryNamespaces(w.Records());
    KnownByName(m, was, w.namespaces, d, ns);
    hide Writer.Valid, NamespacesOk, CachedOf, UsesDefault, CachedAgain, Caches;
    if ns in was {
      assert m[ns := CachedOf(ns)] == m;
      StillAgrees(w, d, m);
    } else {
      forall i | 0 <= i < |was|
        ensures HasPrefix(was[i], d.prefixes[i])
      {
        assert HadPrefix(m, was[i], d.prefixes[i]);
        assert was[i] == w.namespaces[i];
        CachesMember(w.namespaces, was[i]);
        CachedIs(was[i]);
      }
      NewlyAgreed(w, d, was, ns, uri, prefix);
    }
  }

  method DeclareKeeping(w: Writer, uri: CString, prefix: Option<CString>, ghost d: Defaults) returns (r: Status)
    requires w.Valid()
    modifies w`namespaces, w`prefixes, w`attributes, w`status, w`defaultNsDeclared, w`nextPrefix, w.namespaces
    ensures r.Success? ==> w.Valid() && w.TagKept() && w.Said() == old(w.Said())
    ensures r.Success? && old(w.Tried()) ==> w.Tried()
    ensures r.Success? ==> forall n :: n in w.namespaces ==> n in old(w.namespaces) || fresh(n)
    ensures r.Success? && old(w.XmlKept()) && !RebindsXml(uri, prefix) ==> w.XmlKept()
    ensures r.Success? && old(w.Plain() && IsPlain(w, DeclareNamespace(uri, prefix))) ==> w.Plain()
    ensures r.Success? && old(Agrees(w, d)) && PlainCall(d, DeclareNamespace(uri, prefix)) ==>
              Agrees(w, DefaultsAfter(d, DeclareNamespace(uri, prefix)))
  {
    hide ElementStack.AllBindings, Caches, UsesDefault, IsXml, PlainCaches, XmlKeptIn, CachedOf, NamespaceDeclared;
    hide PlainNamespaces, PlainBindings, RebindsXml, Writer.Said, PlainCall, DefaultsAfter, HadPrefix, HasPrefix;
    hide Writer.Valid, Writer.TagKept, Writer.XmlKept, Writer.Tried;
    ghost var m, serial, bs := Caches(w.namespaces), w.nextPrefix, ElementStack.AllBindings(w.frames);
    ghost var was := w.namespaces;
    UsesKnownDefault(w, uri, prefix);
    XmlKeptIsXmlKeptIn(w);
    PlainIsPlainCaches(w.namespaces, bs, w.xmlnsEquals);
    CachesKeys(w.namespaces);
    AgreesMeansHad(w, d);
    ghost var expected := Agrees(w, d) && PlainCall(d, DeclareNamespace(uri, prefix));
    if expected {
      PlainCallIsPlain(w, d, DeclareNamespace(uri, prefix));
    }
    var ns;
    ns, r := w.DeclareNamespace(uri, prefix, Success);
    if r.Success? {
      XmlKeptIsXmlKeptIn(w);
      PlainIsPlainCaches(w.namespaces, bs, w.xmlnsEquals);
      DeclaredKeeps(m, ns, CachedOf(ns), prefix, serial, w.xmlnsEquals, bs);
      if expected {
        DeclaredAgrees(w, d, m, was, ns, uri, prefix);
      }
    }
  }

  method DoDeclareNamespace(w: Writer, uri: CString, prefix: Option<CString>, out: Sender, ghost d: Defaults) returns (r: Status)
    requires w.Valid() && (w.sender == null || w.sender == out)
    modifies w, w.namespaces
    ensures r.Success? ==> Performed(w, DeclareNamespace(uri, prefix), out, d)
  {
    hide Writer.Valid, Writer.ShapeOk, Writer.XmlKept, Writer.ValuesOk, Writer.InStep, Writer.Plain, ScopedAs;
    hide IsPlain, RebindsXml, Check, Matches, RenderAll, Writer.Said, PlainCall, DefaultsAfter, Agrees, Writer.Tried;
    r := DeclareKeeping(w, uri, prefix, d);
  }

  lemma NoNewDefaults(d: Defaults, call: Call)
    requires !call.DeclareNamespace?
    ensures DefaultsAfter(d, call) == d
  {
  }

  method DoDeclareElement(w: Writer, space: Option<CString>, kind: CString, out: Sender, ghost d: Defaults) returns (r: Status)
    requires w.Valid() && (w.sender == null || w.sender == out)
    modifies w
    ensures r.Success? ==> Performed(w, DeclareElement(space, kind), out, d)
  {
    hide Writer.Now, Writer.Tried, Writer.Outlook;
    hide DefaultsAfter, PlainCall;
    hide Writer.ShapeOk, Writer.XmlKept, Writer.Said, Writer.Clean, Writer.Scoped, IsName;
    NoNewDefaults(d, DeclareElement(space, kind));
    var found, ns := Namespace(w, space);
    hide Writer.Valid;
    if !found {
      return NoHandle;
    }
    var e;
    e, r := w.DeclareElement(ns, kind, Success);
  }

  method DoDeclareAttribute(w: Writer, space: Option<CString>, name: CString, out: Sender, ghost d: Defaults) returns (r: Status)
    requires w.Valid() && (w.sender == null || w.sender == out)
    modifies w
    ensures r.Success? ==> Performed(w, DeclareAttribute(space, name), out, d)
  {
    hide Writer.Now, Writer.Tried, Writer.Outlook;
    hide DefaultsAfter, PlainCall;
    hide Writer.ShapeOk, Writer.XmlKept, Writer.Said, Writer.Clean, Writer.Scoped, IsName;
    NoNewDefaults(d, DeclareAttribute(space, name));
    var found, ns := Namespace(w, space);
    hide Writer.Valid;
    if !found {
      return NoHandle;
    }
    var a;
    a, r := w.DeclareAttribute(ns, name, Success);
  }

  /** The element declared like that, if the caller has got one. */
  method LookUpElement(w: Writer, space: Option<CString>, kind: CString) returns (e: Element?)
    requires w.Valid()
    ensures e != null ==> e in w.elements && UriOf(e.ns) == space && e.kind == kind
  {
    hide Writer.ShapeOk;
    var found, ns := Namespace(w, space);
    if !found {
      return null;
    }
    TablesAreOk(w);
    e := w.FindElement(ns, kind);
  }

  method DoStartElement(w: Writer, space: Option<CString>, kind: CString, out: Sender, ghost d: Defaults) returns (r: Status)
    requires w.Valid() && (w.sender == null || w.sender == out)
    modifies w, w.namespaces, w.attributes, out
    ensures r.Success? ==> Performed(w, StartElement(space, kind), out, d)
    ensures GoesWrong(r) ==> old(w.Starting() && !w.Scoped()) && r == old(w.Outlook())
  {
    hide Writer.Valid, Writer.ShapeOk, Writer.Scoped, Writer.Outlook, Writer.Clean, Writer.Said, Writer.Tried;
    hide Writer.XmlKept;
    hide Agrees, DefaultsAfter, PlainCall, Rebinds, IsPlain, Told;
    var e := LookUpElement(w, space, kind);
    if e == null {
      return NoHandle;
    }
    r := StartKnown(w, e, space, kind, out, d);
  }

  method StartKnown(w: Writer, e: Element, space: Option<CString>, kind: CString, out: Sender, ghost d: Defaults) returns (r: Status)
    requires w.Valid() && (w.sender == null || w.sender == out)
    requires e in w.elements && UriOf(e.ns) == space && e.kind == kind
    modifies w, w.namespaces, w.attributes, out
    ensures r.Success? ==> Performed(w, StartElement(space, kind), out, d)
    ensures GoesWrong(r) ==> old(w.Starting() && !w.Scoped()) && r == old(w.Outlook())
  {
    hide Left, Opened, Agrees, UriOf;
    hide Writer.Now, Writer.Tried, Writer.Outlook;
    hide DefaultsAfter, PlainCall, Rebinds, IsPlain, HasPrefix, Extends;
    hide Writer.Valid, Writer.ShapeOk, Writer.XmlKept, Writer.Said, Writer.Clean, Writer.Scoped;
    NoNewDefaults(d, StartElement(space, kind));
    r := w.StartElement(e);
  }

  lemma TablesAreOk(w: Writer)
    requires w.Valid()
    ensures w.ShapeOk() && RegistryOk(w.Records())
  {
  }

  /** The namespace with that name; no call that leaves xml alone gives it another prefix. */
  method LookUpNamespace(w: Writer, uri: CString, prefix: Option<CString>) returns (ns: Tables.Namespace?)
    requires w.Valid()
    ensures ns != null ==> ns in w.namespaces && ns.name == uri
    ensures ns != null && w.XmlKept() && !RebindsXml(uri, prefix) && IsXml(ns) ==> UsesDefault(CachedOf(ns), prefix)
    ensures ns != null && IsPlain(w, AddNamespace(uri, prefix)) ==> UsesDefault(CachedOf(ns), prefix)
  {
    hide Writer.ShapeOk, Writer.XmlKept, UsesDefault, RebindsXml, CachedOf, IsXml;
    UsesKnownDefault(w, uri, prefix);
    ns := w.FindNamespace(uri);
  }

  method DoAddNamespace(w: Writer, uri: CString, prefix: Option<CString>, out: Sender, ghost d: Defaults) returns (r: Status)
    requires w.Valid() && (w.sender == null || w.sender == out)
    modifies w, w.namespaces, w.attributes
    ensures r.Success? ==> Performed(w, AddNamespace(uri, prefix), out, d)
  {
    hide Writer.Now, Writer.Tried, Writer.Outlook;
    hide DefaultsAfter, PlainCall, IsPlain, UsesDefault, RebindsXml, CachedOf, IsXml;
    hide Writer.Valid, Writer.ShapeOk, Writer.XmlKept, Writer.Said, Writer.Clean, Writer.Scoped;
    NoNewDefaults(d, AddNamespace(uri, prefix));
    var ns := LookUpNamespace(w, uri, prefix);
    if ns == null {
      return NoHandle;
    }
    r := w.AddNamespaceCall(ns, prefix);
  }

  lemma KeyOfAttribute(w: Writer, a: Attribute)
    requires w.Valid() && a in w.attributes
    ensures KeyOf(WantedOf(a)) == AttributeKey(UriOf(a.ns), a.name)
    ensures DeclaresNamespace(KeyOf(WantedOf(a))) <==> IsDeclaration(a)
    ensures IsDeclaration(a) <==> a.ns == null && IsDeclarationName(a.name)
    ensures a.ns != null ==> a.ns in w.namespaces
  {
    TablesAreOk(w);
    DeclarationKey(a, w.Records());
    assert AttributeOk(a, w.namespaces);
  }

  /** The attribute declared like that, if the caller has got one. */
  method LookUpAttribute(w: Writer, space: Option<CString>, name: CString) returns (a: Attribute?)
    requires w.Valid()
    ensures a != null ==>
              && a in w.attributes && (a.ns != null ==> a.ns in w.namespaces)
              && KeyOf(WantedOf(a)) == AttributeKey(space, name)
              && (IsDeclaration(a) <==> DeclaresNamespace(AttributeKey(space, name)))
              && (IsDeclaration(a) <==> space.None? && IsDeclarationName(name))
  {
    hide Writer.ShapeOk, IsDeclaration, IsDeclarationName, KeyOf, WantedOf, AttributeKey, DeclaresNamespace;
    var found, ns := Namespace(w, space);
    if !found {
      return null;
    }
    a := FindAttribute(w, ns, name);
    if a != null {
      KeyOfAttribute(w, a);
    }
  }

  method DoAddAttribute(w: Writer, space: Option<CString>, name: CString, value: Option<CString>, out: Sender, ghost d: Defaults) returns (r: Status)
    requires w.Valid() && (w.sender == null || w.sender == out)
    modifies w, w.namespaces, w.attributes
    ensures r.Success? ==> Performed(w, AddAttribute(space, name, value), out, d)
  {
    hide AttemptedByDefault, Agrees, Extends, Gathered, Writer.Now, Writer.Tried, Writer.Outlook;
    hide DefaultsAfter, PlainCall;
    hide Writer.Valid, Writer.ShapeOk, Writer.XmlKept, Writer.Said, Writer.Clean, Writer.Scoped;
    hide IsDeclaration, IsDeclarationName, Furnished, KeyOf, WantedOf, AttributeKey, DeclaresNamespace, Escaped;
    NoNewDefaults(d, AddAttribute(space, name, value));
    var a := LookUpAttribute(w, space, name);
    if a == null {
      return NoHandle;
    }
    r := w.AddAttributeCall(a, value);
  }

  method DoAddText(w: Writer, text: CString, out: Sender, ghost d: Defaults) returns (r: Status)
    requires w.Valid() && (w.sender == null || w.sender == out)
    modifies w, w.namespaces, w.attributes, out
    ensures r.Success? ==> Performed(w, AddText(text), out, d)
    ensures GoesWrong(r) ==> old(w.Starting() && !w.Scoped()) && r == old(w.Outlook())
  {
    hide Left, Opened, Closed;
    hide Writer.Now, Writer.Tried, Writer.Outlook;
    hide DefaultsAfter, PlainCall, Writer.Valid, Writer.ShapeOk, Writer.XmlKept, Writer.Said, Writer.Clean;
    hide Writer.Scoped;
    hide Encode, Escaped, IsXmlChar, IsCommentText, IsText;
    NoNewDefaults(d, AddText(text));
    r := w.AddText(text);
  }

  method DoAddCharacter(w: Writer, c: int, out: Sender, ghost d: Defaults) returns (r: Status)
    requires w.Valid() && (w.sender == null || w.sender == out)
    modifies w, w.namespaces, w.attributes, out
    ensures r.Success? ==> Performed(w, AddCharacter(c), out, d)
    ensures GoesWrong(r) ==> old(w.Starting() && !w.Scoped()) && r == old(w.Outlook())
  {
    hide Left, Opened, Closed;
    hide Writer.Now, Writer.Tried, Writer.Outlook;
    hide DefaultsAfter, PlainCall, Writer.Valid, Writer.ShapeOk, Writer.XmlKept, Writer.Said, Writer.Clean;
    hide Writer.Scoped;
    hide Encode, Escaped, IsXmlChar, IsCommentText, IsText;
    NoNewDefaults(d, AddCharacter(c));
    r := w.AddCharacter(c);
  }

  method DoAddComment(w: Writer, text: CString, out: Sender, ghost d: Defaults) returns (r: Status)
    requires w.Valid() && (w.sender == null || w.sender == out)
    modifies w, w.namespaces, w.attributes, out
    ensures r.Success? ==> Performed(w, AddComment(text), out, d)
    ensures GoesWrong(r) ==> old(w.Starting() && !w.Scoped()) && r == old(w.Outlook())
  {
    hide Left, Opened, Closed;
    hide Writer.Now, Writer.Tried, Writer.Outlook;
    hide DefaultsAfter, PlainCall, Writer.Valid, Writer.ShapeOk, Writer.XmlKept, Writer.Said, Writer.Clean;
    hide Writer.Scoped;
    hide Encode, Escaped, IsXmlChar, IsCommentText, IsText;
    NoNewDefaults(d, AddComment(text));
    r := w.AddComment(text);
  }

  method DoEndElement(w: Writer, out: Sender, ghost d: Defaults) returns (r: Status)
    requires w.Valid() && (w.sender == null || w.sender == out)
    modifies w, w.namespaces, w.attributes, out
    ensures r.Success? ==> Performed(w, EndElement, out, d)
    ensures GoesWrong(r) ==> old(w.Starting() && !w.Scoped()) && r == old(w.Outlook())
  {
    hide Left, Closed, Agrees, IsPlain, Rebinds, HasPrefix, XmlIsStale, Check;
    hide Writer.Now, Writer.Tried, Writer.Outlook;
    hide DefaultsAfter, PlainCall;
    hide Writer.Valid, Writer.ShapeOk, Writer.XmlKept, Writer.Said, Writer.Clean, Writer.Scoped;
    NoNewDefaults(d, EndElement);
    r := w.EndElement();
  }

  method DoUnset(w: Writer, out: Sender, ghost d: Defaults) returns (r: Status)
    requires w.Valid() && (w.sender == null || w.sender == out)
    modifies w, w.namespaces, w.attributes, out
    ensures r.Success? ==> Performed(w, UnsetDefaultNamespace, out, d)
  {
    hide Writer.Now, Writer.Tried, Writer.Outlook;
    hide DefaultsAfter, PlainCall;
    hide Writer.Valid, Writer.ShapeOk, Writer.XmlKept, Writer.Said, Writer.Clean, Writer.Scoped;
    NoNewDefaults(d, UnsetDefaultNamespace);
    r := w.UnsetDefaultNamespace();
  }

  method DoStartDocument(w: Writer, out: Sender, ghost d: Defaults) returns (r: Status)
    requires w.Valid() && (w.sender == null || w.sender == out)
    modifies w
    ensures r.Success? ==> Performed(w, StartDocument, out, d)
  {
    hide Writer.Now, Writer.Tried, Writer.Outlook;
    hide DefaultsAfter, PlainCall;
    hide Writer.Valid, Writer.ShapeOk, Writer.XmlKept, Writer.Said, Writer.Clean, Writer.Scoped;
    NoNewDefaults(d, StartDocument);
    r := w.StartDocument(out);
  }

  /** What the caller has received when a document is ended. */
  ghost predicate Delivered(w: Writer, out: Sender)
    reads w, out
  {
    && IsDocument(w.events)
    && out.sent == w.base + RenderAll(w.events)
  }

  method DoEndDocument(w: Writer, out: Sender, ghost d: Defaults) returns (r: Status)
    requires w.Valid() && (w.sender == null || w.sender == out)
    modifies w
    ensures r.Success? ==> Performed(w, EndDocument, out, d)
    ensures r.Success? && old(w.Clean()) ==> Delivered(w, out)
    ensures r.Success? ==> Actions(w.events) == w.Said()
    ensures r.Success? && old(w.Scoped()) ==> Scopes(w.events) == Some([])
  {
    hide Writer.Now, Writer.Tried, Writer.Outlook;
    hide DefaultsAfter, PlainCall;
    hide Writer.Valid, Writer.ShapeOk, Writer.XmlKept, Writer.Said, Writer.Clean, Writer.Scoped, RenderAll, IsDocument;
    NoNewDefaults(d, EndDocument);
    r := w.EndDocument();
  }

  /** Make one call. */
  method Perform(w: Writer, call: Call, out: Sender, ghost d: Defaults) returns (r: Status)
    requires w.Valid() && (w.sender == null || w.sender == out)
    modifies w, w.namespaces, w.attributes, out
    ensures r.Success? ==> Performed(w, call, out, d)
    ensures FinishesTag(call) && GoesWrong(r) ==> old(w.Starting() && !w.Scoped()) && r == old(w.Outlook())
    ensures r.Success? && call == EndDocument ==>
              && Actions(w.events) == w.Said()
              && (old(w.Clean()) ==> Delivered(w, out))
              && (old(w.Scoped()) ==> Scopes(w.events) == Some([]))
  {
    hide *;
    FinishesTagIf(call);
    match call {
      case DeclareNamespace(uri, prefix) => r := DoDeclareNamespace(w, uri, prefix, out, d);
      case DeclareElement(space, kind) => r := DoDeclareElement(w, space, kind, out, d);
      case DeclareAttribute(space, name) => r := DoDeclareAttribute(w, space, name, out, d);
      case StartDocument => r := DoStartDocument(w, out, d);
      case StartElement(space, kind) => r := DoStartElement(w, space, kind, out, d);
      case AddNamespace(uri, prefix) => r := DoAddNamespace(w, uri, prefix, out, d);
      case UnsetDefaultNamespace => r := DoUnset(w, out, d);
      case AddAttribute(space, name, value) => r := DoAddAttribute(w, space, name, value, out, d);
      case EndElement => r := DoEndElement(w, out, d);
      case AddText(text) => r := DoAddText(w, text, out, d);
      case AddCharacter(c) => r := DoAddCharacter(w, c, out, d);
      case AddComment(text) => r := DoAddComment(w, text, out, d);
      case EndDocument => r := DoEndDocument(w, out, d);
    }
  }

  // ---------- Any number of calls ----------

  lemma OneMore(calls: seq<Call>, call: Call)
    ensures ToldAll(calls + [call]) == Told(ToldAll(calls), call)
    ensures KeepsXml(calls + [call]) <==> KeepsXml(calls) && !Rebinds(call)
    ensures DefaultsOf(calls + [call]) == DefaultsAfter(DefaultsOf(calls), call)
    ensures PlainCalls(calls + [call]) <==> PlainCalls(calls) && PlainCall(DefaultsOf(calls), call)
  {
    hide Told, Rebinds, DefaultsAfter, PlainCall;
    assert (calls + [call])[..|calls|] == calls;
    assert call in calls + [call] && forall c :: c in calls ==> c in calls + [call];
  }

  /** What holds after calls that have all succeeded. */
  ghost predicate Running(w: Writer, calls: seq<Call>, out: Sender)
    reads w, w.namespaces, w.attributes, out, if w.sender == null then {} else {w.sender}
  {
    && w.Valid() && (w.sender == null || w.sender == out)
    && w.Said() == ToldAll(calls) && w.Tried()
    && (KeepsXml(calls) ==> w.Clean() && w.XmlKept())
    && (PlainCalls(calls) ==> w.Scoped() && Agrees(w, DefaultsOf(calls)))
  }

  /** What has been delivered when the last call has ended a document. */
  ghost predicate Ended(w: Writer, calls: seq<Call>, out: Sender)
    reads w, out
  {
    && Actions(w.events) == ToldAll(calls)
    && (KeepsXml(calls) ==> Delivered(w, out))
    && (PlainCalls(calls) ==> Scopes(w.events) == Some([]))
  }

  method Continue(w: Writer, ghost calls: seq<Call>, call: Call, out: Sender) returns (r: Status)
    requires Running(w, calls, out)
    modifies w, w.namespaces, w.attributes, out
    ensures r.Success? ==> Running(w, calls + [call], out)
    ensures FinishesTag(call) && GoesWrong(r) ==> !PlainCalls(calls)
    ensures r.Success? && call == EndDocument ==> Ended(w, calls + [call], out)
    ensures r.Success? ==> (forall n :: n in w.namespaces ==> n in old(w.namespaces) || fresh(n))
    ensures r.Success? ==> (forall a :: a in w.attributes ==> a in old(w.attributes) || fresh(a))
  {
    hide Writer.Valid, Writer.ShapeOk, Writer.XmlKept, Writer.Said, Writer.Clean, Writer.Scoped, Delivered, Told;
    hide ToldAll, KeepsXml;
    hide Writer.Tried, Writer.Outlook, FinishesTag;
    hide IsPlain, Actions, Scopes, PlainCalls, PlainCall, DefaultsOf, DefaultsAfter, Agrees;
    OneMore(calls, call);
    if PlainCalls(calls + [call]) {
      PlainCallIsPlain(w, DefaultsOf(calls), call);
    }
    r := Perform(w, call, out, DefaultsOf(calls));
  }

  /**
   Make calls one after the other until one fails. However many there are and in whatever
   order: if all of them succeed, and the last one ends a document, then what was sent is one
   balanced document that consists of just the elements, attributes, texts and comments that
   were asked for. If namespaces were only used under default prefixes, every prefix in it
   stands for its namespace as section 6.1 of Namespaces in XML 1.0 asks; nor does a call that
   finishes a start tag make the source read where it should not.
   */
  method Run(props: CharProperties, calls: seq<Call>, out: Sender) returns (w: Writer, r: Status, made: nat)
    modifies out
    ensures fresh(w)
    ensures if r.Success? then made == |calls| else made < |calls|
    ensures r.Success? ==> Running(w, calls, out)
    ensures GoesWrong(r) && FinishesTag(calls[made]) ==> !PlainCalls(calls[..made])
    ensures r.Success? && calls != [] && calls[|calls| - 1] == EndDocument ==> Ended(w, calls, out)
  {
    w := NewWriter(props, out);
    hide Running, Ended, PlainCalls, FinishesTag;
    r, made := Success, 0;
    assert calls[..0] == [];
    while made < |calls|
      invariant made <= |calls| && r.Success? && fresh(w) && Running(w, calls[..made], out)
      invariant (forall n :: n in w.namespaces ==> fresh(n)) && (forall a :: a in w.attributes ==> fresh(a))
      invariant made > 0 && calls[made - 1] == EndDocument ==> Ended(w, calls[..made], out)
    {
      assert calls[..made + 1] == calls[..made] + [calls[made]];
      assert forall k :: 0 <= k < |w.namespaces| ==> w.namespaces[k] in w.namespaces;
      assert forall k :: 0 <= k < |w.attributes| ==> w.attributes[k] in w.attributes;
      r := Continue(w, calls[..made], calls[made], out);
      if !r.Success? {
        return;
      }
      made := made + 1;
    }
    assert calls[..made] == calls;
  }

  method NewWriter(props: CharProperties, out: Sender) returns (w: Writer)
    ensures fresh(w) && fresh(w.namespaces) && fresh(w.attributes)
    ensures Running(w, [], out)
  {
    hide Writer.ShapeOk, Writer.XmlKept, Writer.Said, Writer.Clean, Writer.Scoped;
    assert XMLNS_XML == XMLNS_COLON + XML_PREFIX;
    w := new Writer(props);
    w.NothingWritten();
    assert HasPrefix(w.namespaces[0], (XML_URI, XML_PREFIX));
  }
}
