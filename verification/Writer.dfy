/**
 The XML writer: its records, its one stack and its sequence machine. Start and end
 tags are printed from fields cached in the namespaces.
 */
module GenxWriter {
  import opened Options
  import opened Bytes
  import opened StatusCodes
  import opened Utf8
  import opened Escape
  import opened Tables
  import opened ElementStack
  import opened Events
  import opened WriterState
  import opened Scoping
  import opened Requests
  import opened Scenes
  import opened Failures

  class Writer {
    const props: CharProperties
    const xmlnsEquals: Attribute
    var status: Status
    var sequence: Sequence
    var nextPrefix: nat
    var defaultNsDeclared: bool
    var nowStarting: Element?
    var namespaces: seq<Namespace>
    var elements: seq<Element>
    var attributes: seq<Attribute>
    var prefixes: seq<bytes>
    var stack: seq<Entry>
    var sender: Sender?
    /** The stack as frames. */
    ghost var frames: seq<Frame>
    /** What has been written since the document was started, and what the sender held before. */
    ghost var events: seq<Event>
    ghost var base: bytes

    ghost function Records(): Registry
      reads this`namespaces, this`elements, this`attributes, this`prefixes
    {
      Registry(namespaces, elements, attributes, prefixes, xmlnsEquals)
    }

    ghost predicate ShapeOk()
      reads this`namespaces, this`elements, this`attributes, this`prefixes
      reads this`stack, this`frames, this`sequence, this`nowStarting, this`sender
    {
      && RegistryOk(Records())
      && FramesOk(frames, Records())
      && stack == Flatten(frames)
      && SequenceOk(sequence, frames, nowStarting)
      && (sequence != NoDocument ==> sender != null)
    }

    /** Everything the writer keeps, whatever is called and whether it succeeds or not. */
    ghost predicate Valid()
      reads this`namespaces, this`elements, this`attributes, this`prefixes
      reads this`stack, this`frames, this`sequence, this`nowStarting, this`sender, this`defaultNsDeclared, namespaces
    {
      && ShapeOk()
      && (forall ns :: ns in namespaces ==> NamespaceOk(ns, AllBindings(frames), Records()))
      && DefaultsOk()
    }

    /** Default prefixes differ, and the flag says whether one of them is empty. */
    ghost predicate DefaultsOk()
      reads this`namespaces, this`defaultNsDeclared, namespaces`defaultDecl
    {
      && DefaultsDiffer(namespaces)
      && (forall ns :: ns in namespaces && ns.defaultDecl == xmlnsEquals ==> defaultNsDeclared)
    }

    /** Where declarations are kept. */
    ghost function Now(): Scene
      reads this`frames, this`namespaces, namespaces
    {
      Scene(frames, Caches(namespaces))
    }

    /** A new writer, with the xml namespace declared. */
    constructor (props: CharProperties)
      ensures this.props == props
      ensures Valid() && sequence == NoDocument && status == Success && sender == null
      ensures namespaces == [namespaces[0]] && !namespaces[0].baroque && elements == [] && !defaultNsDeclared
      ensures namespaces[0].name == XML_URI && nextPrefix == 1 && prefixes == [XMLNS_XML]
      ensures namespaces[0].defaultDecl != null && namespaces[0].defaultDecl != xmlnsEquals && namespaces[0].defaultDecl.name == XMLNS_XML
      ensures fresh(namespaces) && fresh(attributes)
      ensures frames == [] && events == [] && forall a :: a in attributes ==> !a.provided
    {
      XmlUriIsText();
      hide RegistryOk, IsText, KeyOf, Keys;
      var xmlns := new Attribute(null, XMLNS, NsDecl, []);
      var xmlDecl := new Attribute(null, XMLNS_XML, NsDecl, XML_URI);
      var xml := new Namespace(XML_URI);
      xml.defaultDecl, xml.declaration, xml.declCount := xmlDecl, xmlDecl, 1;
      this.props := props;
      xmlnsEquals := xmlns;
      status, sequence, nextPrefix, defaultNsDeclared := Success, NoDocument, 1, false;
      nowStarting, sender := null, null;
      namespaces, elements, attributes, prefixes, stack := [xml], [], [xmlns, xmlDecl], [XMLNS_XML], [];
      frames, events, base := [], [], [];
      new;
      FirstRegistryOk(Records());
    }

    // ---------- Declarations ----------

    /** The interned name xmlns:`prefix`, which may be there already if that is forced. */
    method StorePrefix(prefix: CString, force: bool) returns (p: Option<bytes>)
      requires ShapeOk() && prefix != []
      modifies this`prefixes, this`status
      ensures ShapeOk() && Grows(old(Records()), Records())
      ensures p.Some? ==> p.value == XMLNS_COLON + prefix && p.value in prefixes
      ensures p.Some? && !force ==> p.value !in old(prefixes)
      ensures p.None? <==> !force && XMLNS_COLON + prefix in old(prefixes)
      ensures p.None? ==> prefixes == old(prefixes) && status == DuplicatePrefix
    {
      hide FramesOk, NamespacesOk, SortedKeys, Keys, SequenceOk, Flatten, AttributeOk;
      var name := XMLNS_COLON + prefix;
      var low, high := SearchPrefix(prefixes, name);
      if low != -1 && name == prefixes[low] {
        if force {
          return Some(prefixes[low]);
        }
        status := DuplicatePrefix;
        return None;
      }
      PrefixInserted(Records(), name, high);
      FramesOkGrows(frames, Records(), Records().(prefixes := Inserted(prefixes, name, high)));
      prefixes := Inserted(prefixes, name, high);
      status := Success;
      p := Some(name);
    }

    /** Attribute values of the current start tag can be printed as they are. */
    ghost predicate ValuesOk()
      reads this`attributes, attributes
    {
      forall a :: a in attributes && a.provided ==> IsAttributeValue(a.value)
    }

    /** Namespaces have been used plainly so far. */
    ghost predicate Plain()
      reads this`namespaces, this`frames, namespaces`baroque, namespaces`defaultDecl
    {
      && PlainNamespaces(namespaces, xmlnsEquals)
      && PlainBindings(AllBindings(frames), namespaces)
    }

    /** The start tag being gathered agrees with the stack. */
    ghost predicate InStep()
      reads this`attributes, this`frames, attributes
    {
      frames != [] && TagInStep(attributes, AllBindings(frames), Top(frames).bindings)
    }

    /** More attributes may be known, but none of the current start tag. */
    twostate predicate TagKept()
      reads this`attributes, this`frames, attributes
    {
      && Gathered(attributes) == old(Gathered(attributes))
      && (old(ValuesOk()) ==> ValuesOk())
      && (old(InStep()) ==> InStep())
      && (forall x :: x in attributes ==> x in old(attributes) || fresh(x))
    }

    /** An attribute that is not provided makes no difference to the current start tag. */
    lemma UnprovidedInserted(aa: seq<Attribute>, a: Attribute, at: nat)
      requires at <= |aa| && !a.provided
      ensures Gathered(Inserted(aa, a, at)) == Gathered(aa)
      ensures (forall x :: x in aa && x.provided ==> IsAttributeValue(x.value)) ==>
                (forall x :: x in Inserted(aa, a, at) && x.provided ==> IsAttributeValue(x.value))
      ensures forall bs, own :: TagInStep(aa, bs, own) ==> TagInStep(Inserted(aa, a, at), bs, own)
    {
      hide IsDeclaration, IsAttributeValue, Count, IsXml, Escaped, Declares;
      InsertedMembers(aa, a, at);
    }

    /** What putting an attribute that is not provided in its place keeps. */
    lemma InsertionKeeps(a: Attribute, at: nat)
      requires ShapeOk() && !a.provided && AttributeOk(a, namespaces)
      requires at <= |attributes| && KeyOf(WantedOf(a)) !in Keys(attributes)
      requires forall i :: 0 <= i < at ==> KeyOrder(Keys(attributes)[i], KeyOf(WantedOf(a))) <= 0
      requires forall i :: at <= i < |attributes| ==> KeyOrder(KeyOf(WantedOf(a)), Keys(attributes)[i]) < 0
      ensures var aa: seq<Attribute> := Inserted(attributes, a, at);
              var t := Records().(attributes := aa);
              && RegistryOk(t) && FramesOk(frames, t) && Grows(Records(), t)
              && Gathered(aa) == Gathered(attributes)
              && (ValuesOk() ==> forall x :: x in aa && x.provided ==> IsAttributeValue(x.value))
              && (InStep() ==> TagInStep(aa, AllBindings(frames), Top(frames).bindings))
              && (forall x :: x in aa <==> x in attributes || x == a)
    {
      hide FramesOk, SequenceOk, Flatten, RegistryOk, KeyOrder, KeyOf, Keys, Grows, Gathered, TagInStep;
      hide IsAttributeValue, AllBindings;
      AttributeInserted(Records(), a, at);
      FramesOkGrows(frames, Records(), Records().(attributes := Inserted<Attribute>(attributes, a, at)));
      InsertedMembers(attributes, a, at);
      UnprovidedInserted(attributes, a, at);
    }

    /** Put a new attribute in its place in the table. */
    method BuildAttribute(w: Wanted, value: bytes, at: nat) returns (a: Attribute)
      requires ShapeOk() && w.atype == TypeOf(w.ns, w.name) && (w.ns != null ==> w.ns in namespaces)
      requires at <= |attributes| && KeyOf(w) !in Keys(attributes)
      requires forall i :: 0 <= i < at ==> KeyOrder(Keys(attributes)[i], KeyOf(w)) <= 0
      requires forall i :: at <= i < |attributes| ==> KeyOrder(KeyOf(w), Keys(attributes)[i]) < 0
      modifies this`attributes, this`status
      ensures ShapeOk() && Grows(old(Records()), Records()) && TagKept() && status == Success
      ensures fresh(a) && WantedOf(a) == w && !a.provided && a.value == value
      ensures attributes == Inserted(old(attributes), a, at) && a in attributes
    {
      hide FramesOk, SequenceOk, Flatten, RegistryOk, KeyOrder, KeyOf, Keys, Grows, Gathered, TagInStep;
      hide IsAttributeValue, AllBindings;
      hide Inserted;
      a := new Attribute(w.ns, w.name, w.atype, value);
      InsertionKeeps(a, at);
      attributes := Inserted(attributes, a, at);
      status := Success;
    }

    /** Declare an attribute; colonized names are for namespace declarations. */
    method DeclareAnyAttribute(ns: Namespace?, name: bytes, value: bytes, before: Status)
      returns (a: Attribute?, after: Status)
      requires ShapeOk() && (ns != null ==> ns in namespaces)
      modifies this`attributes, this`status
      ensures ShapeOk() && Grows(old(Records()), Records())
      ensures a == null <==> ns != null && ns.defaultDecl == xmlnsEquals
      ensures a == null ==> attributes == old(attributes) && after == AttributeInDefaultNamespace
      ensures a != null ==> a in attributes && WantedOf(a) == Wanted(TypeOf(ns, name), ns, name)
      ensures a != null && a in old(attributes) ==> attributes == old(attributes) && after == before && status == old(status)
      ensures a != null && a !in old(attributes) ==>
                fresh(a) && !a.provided && a.value == value && after == Success && status == Success
      ensures TagKept()
    {
      hide Gathered, InStep, ValuesOk;
      hide FramesOk, SequenceOk, Flatten, RegistryOk, IsDecl, KeyOrder, KeyOf, Keys, OrderAttributes;
      var w := Wanted(TypeOf(ns, name), ns, name);
      if ns != null && ns.defaultDecl == xmlnsEquals {
        status := AttributeInDefaultNamespace;
        return null, status;
      }
      RegistryIsSearchable(Records(), ns, name);
      var low, high := SearchAttribute(attributes, w);
      if low != -1 && OrderAttributes(w, WantedOf(attributes[low])) == 0 {
        return attributes[low], before;
      }
      a := BuildAttribute(w, value, high);
      after := Success;
    }
  
    method FindNamespace(uri: bytes) returns (ns: Namespace?)
      ensures ns == null ==> forall n :: n in namespaces ==> n.name != uri
      ensures ns != null ==> ns in namespaces && ns.name == uri
    {
      for i := 0 to |namespaces|
        invariant forall k :: 0 <= k < i ==> namespaces[k].name != uri
      {
        if uri == namespaces[i].name {
          return namespaces[i];
        }
      }
      ns := null;
    }

    /** No namespace has that default prefix, nor was it used for anything else. */
    ghost predicate IsFree(prefix: bytes)
      reads this`prefixes, this`defaultNsDeclared
    {
      if prefix == [] then !defaultNsDeclared else XMLNS_COLON + prefix !in prefixes
    }

    /** genxDeclareNamespace: the attribute for a default prefix that nobody else has. */
    method NewDefault(ns: Namespace, prefix: CString, before: Status) returns (decl: Attribute?, after: Status)
      requires ShapeOk() && DefaultsOk() && ns in namespaces
      requires forall n :: n in namespaces && n != ns ==> HasDefault(n, Records())
      modifies this`prefixes, this`attributes, this`status, this`defaultNsDeclared
      ensures ShapeOk() && Grows(old(Records()), Records()) && DefaultsOk()
      ensures TagKept()
      ensures after.Success? || after == DuplicatePrefix || after == before
      ensures old(IsFree(prefix)) && before.Success? ==> after.Success?
      ensures prefix != [] ==> defaultNsDeclared == old(defaultNsDeclared)
      ensures after.Success? ==>
                && decl != null && IsDecl(decl, Records())
                && (if prefix == [] then decl == xmlnsEquals && defaultNsDeclared
                    else decl != xmlnsEquals && decl.name == XMLNS_COLON + prefix && decl.name in prefixes)
                && (forall n :: n in namespaces && n != ns ==> n.defaultDecl != decl)
    {
      hide Gathered, ValuesOk, InStep, RegistryOk, FramesOk, Flatten, SequenceOk, IsDecl, DefaultsDiffer, Grows;
      ghost var t := Records();
      GrowsReflexive(t);
      decl := null;
      if prefix == [] {
        if defaultNsDeclared {
          status := DuplicatePrefix;
          return decl, status;
        }
        XmlnsIsDecl(Records());
        decl := xmlnsEquals;
        defaultNsDeclared := true;
        after := Success;
      } else {
        decl, after := NewPrefix(ns, prefix, before);
      }
    }

    /** The same for a prefix that is not empty. */
    method NewPrefix(ns: Namespace, prefix: CString, before: Status) returns (decl: Attribute?, after: Status)
      requires ShapeOk() && DefaultsOk() && ns in namespaces && prefix != []
      requires forall n :: n in namespaces && n != ns ==> HasDefault(n, Records())
      modifies this`prefixes, this`attributes, this`status
      ensures ShapeOk() && Grows(old(Records()), Records()) && DefaultsOk()
      ensures TagKept()
      ensures after.Success? || after == DuplicatePrefix || after == before
      ensures old(IsFree(prefix)) && before.Success? ==> after.Success?
      ensures after.Success? ==>
                && decl != null && IsDecl(decl, Records())
                && decl != xmlnsEquals && decl.name == XMLNS_COLON + prefix && decl.name in prefixes
                && (forall n :: n in namespaces && n != ns ==> n.defaultDecl != decl)
    {
      hide Gathered, ValuesOk, InStep, RegistryOk, FramesOk, Flatten, SequenceOk, IsDecl, DefaultsDiffer, Grows;
      ghost var t := Records();
      decl := null;
      var p := StorePrefix(prefix, false);
      ghost var t1 := Records();
      if p == None {
        return decl, status;
      }
      decl, after := DeclareAnyAttribute(null, p.value, ns.name, before);
      if decl == null || !after.Success? {
        status := after;
        return decl, after;
      }
      GrowsTransitive(t, t1, Records());
      PrefixedIsDecl(decl, prefix, Records());
    }

    /** The end of genxDeclareNamespace: give `ns` the default prefix `prefix`. */
    method SetDefaultPrefix(ns: Namespace, prefix: CString, before: Status) returns (after: Status)
      requires ShapeOk() && ns in namespaces
      requires forall n :: n in namespaces && n != ns ==> HasDefault(n, Records())
      requires DefaultsOk()
      modifies this`prefixes, this`attributes, this`status, this`defaultNsDeclared, ns`baroque, ns`defaultDecl
      ensures ShapeOk() && Grows(old(Records()), Records()) && DefaultsOk()
      ensures TagKept()
      ensures after.Success? ==> ns.defaultDecl != null && HasDefault(ns, Records())
      ensures old(IsFree(prefix)) && before.Success? ==> after.Success?
      ensures prefix != [] ==> defaultNsDeclared == old(defaultNsDeclared)
      ensures after.Success? ==> (ns.defaultDecl == xmlnsEquals <==> prefix == [])
      ensures after.Success? && ns.defaultDecl != xmlnsEquals ==> ns.defaultDecl.name == XMLNS_COLON + prefix
      ensures after.Success? ==>
                ns.baroque == (old(ns.baroque) || (old(ns.defaultDecl) != null && ns.defaultDecl != old(ns.defaultDecl)))
      ensures !after.Success? ==> after == DuplicatePrefix || after == before
      ensures !after.Success? ==> ns.defaultDecl == old(ns.defaultDecl) && ns.baroque == old(ns.baroque)
    {
      hide Gathered, ValuesOk, InStep, IsFree;
      hide RegistryOk, FramesOk, Flatten, SequenceOk, IsDecl, Grows, AllBindings;
      var decl;
      decl, after := NewDefault(ns, prefix, before);
      if after.Success? {
        if ns.defaultDecl != null && decl != ns.defaultDecl {
          ns.baroque := true;
        }
        ns.defaultDecl := decl;
      }
    }

    /** The part of genxDeclareNamespace for a name that is not known yet. */
    method AddNewNamespace(uri: CString, chosen: CString, before: Status) returns (ns: Namespace, after: Status)
      requires Valid() && uri != [] && IsText(uri) && forall n :: n in namespaces ==> n.name != uri
      modifies this`namespaces, this`prefixes, this`attributes, this`status, this`defaultNsDeclared
      ensures if after.Success? then Valid() else after == DuplicatePrefix || after == before
      ensures namespaces == old(namespaces) + [ns] && fresh(ns) && ns.name == uri
      ensures Grows(old(Records()), Records())
      ensures TagKept()
      ensures Caches(namespaces) == old(Caches(namespaces))[ns := CachedOf(ns)] && ns !in old(Caches(namespaces))
      ensures after.Success? ==> NewlyCached(CachedOf(ns), chosen, xmlnsEquals)
      ensures old(IsFree(chosen)) && before.Success? ==> after.Success?
      ensures chosen != [] ==> defaultNsDeclared == old(defaultNsDeclared)
      ensures after.Success? && chosen == [] ==> ns.defaultDecl == xmlnsEquals
    {
      hide Caches, IsFree;
      hide Gathered, ValuesOk, InStep;
      hide RegistryOk, FramesOk, Flatten, SequenceOk, IsDecl, IsText, NamespaceOk, HasDefault, AllBindings, Grows;
      hide IsXml;
      ghost var t, bs := Records(), AllBindings(frames);
      ns := new Namespace(uri);
      CachesMember(namespaces, ns);
      NamespaceAdded(t, ns);
      NoBindings(frames, ns, t);
      namespaces := namespaces + [ns];
      ghost var t1 := Records();
      FramesOkGrows(frames, t, t1);
      NamespacesOkGrow(old(namespaces), bs, t, t1);
      NamespacesHaveDefaults(old(namespaces), bs, t1);
      after := SetDefaultPrefix(ns, chosen, before);
      CachesMember(old(namespaces), ns);
      NamespacesOkGrow(old(namespaces), bs, t1, Records());
      GrowsTransitive(t, t1, Records());
      if after.Success? {
        NewNamespaceOk(ns, bs, Records());
      }
    }

    /** The part of genxDeclareNamespace for a known name that gets another default prefix. */
    method ChangeDefaultPrefix(ns: Namespace, chosen: CString, before: Status) returns (after: Status)
      requires Valid() && ns in namespaces
      modifies this`prefixes, this`attributes, this`status, this`defaultNsDeclared, ns`baroque, ns`defaultDecl
      ensures Valid() && Grows(old(Records()), Records())
      ensures TagKept()
      ensures Caches(namespaces) == old(Caches(namespaces))[ns := CachedOf(ns)] && CachedAgain(CachedOf(ns), old(CachedOf(ns)))
      ensures !after.Success? ==> CachedOf(ns) == old(CachedOf(ns)) && (after == DuplicatePrefix || after == before)
      ensures old(IsFree(chosen)) && before.Success? ==> after.Success?
      ensures chosen != [] ==> defaultNsDeclared == old(defaultNsDeclared)
      ensures after.Success? && chosen == [] ==> ns.defaultDecl == xmlnsEquals
    {
      hide Gathered, ValuesOk, InStep, IsFree;
      hide RegistryOk, FramesOk, Flatten, SequenceOk, IsDecl, CachesOk, AllBindings, DefaultsDiffer;
      ghost var t, bs := Records(), AllBindings(frames);
      NamespacesHaveDefaults(namespaces, bs, t);
      assert NamespaceOk(ns, bs, t);
      ghost var baroque, defaultDecl := ns.baroque, ns.defaultDecl;
      after := SetDefaultPrefix(ns, chosen, before);
      CachesOkGrow(ns, ns.declaration, ns.declCount, baroque, ns.baroque, bs, t, Records());
      if ns.defaultDecl == defaultDecl {
        IsDeclGrows(defaultDecl, t, Records());
      }
      forall n | n in namespaces && n != ns
        ensures NamespaceOk(n, bs, Records())
      {
        NamespaceOkGrows(n, bs, t, Records());
      }
    }

    /** Is `chosen` the default prefix of `ns` already? */
    method HasDefaultPrefix(ns: Namespace, chosen: CString) returns (same: bool)
      requires HasDefault(ns, Records()) && RegistryOk(Records())
      ensures UsesDefault(CachedOf(ns), Some(chosen)) ==> same
      ensures chosen == [] ==> (same <==> ns.defaultDecl == xmlnsEquals)
      ensures ns.defaultDecl != xmlnsEquals ==> (same <==> ns.defaultDecl.name == XMLNS_COLON + chosen)
    {
      hide NamespacesOk, SortedKeys, Keys, SortedStrings, AttributeOk;
      assert |XMLNS_COLON + chosen| > |XMLNS|;
      if ns.defaultDecl == xmlnsEquals && chosen == [] {
        return true;
      }
      if ns.defaultDecl == xmlnsEquals {
        same := *; // the source compares with what lies behind the terminator of "xmlns"
      } else {
        assert ns.defaultDecl.name == XMLNS_COLON + ns.defaultDecl.name[|XMLNS_COLON|..];
        same := ns.defaultDecl.name[|XMLNS_COLON|..] == chosen;
      }
    }

    /** genxDeclareNamespace for a name that is known; nothing happens if the prefix is the one it has. */
    method DeclareKnown(ns: Namespace, prefix: Option<CString>, before: Status) returns (after: Status)
      requires Valid() && ns in namespaces
      modifies this`prefixes, this`attributes, this`status, this`defaultNsDeclared, ns`baroque, ns`defaultDecl
      ensures Valid() && Grows(old(Records()), Records()) && TagKept()
      ensures after.Success? || after == DuplicatePrefix || after == before
      ensures after.Success? ==>
                && Caches(namespaces) == old(Caches(namespaces))[ns := CachedOf(ns)]
                && NamespaceDeclared(old(Caches(namespaces)), ns, CachedOf(ns), prefix, nextPrefix, xmlnsEquals)
      ensures prefix.Some? && old(IsFree(prefix.value)) && before.Success? ==> after.Success?
      ensures prefix.Some? && prefix.value != [] ==> defaultNsDeclared == old(defaultNsDeclared)
      ensures after.Success? && prefix == Some([]) ==> ns.defaultDecl == xmlnsEquals
    {
      hide IsFree;
      hide Caches, Gathered, ValuesOk, InStep, RegistryOk, FramesOk, Flatten, SequenceOk, IsDecl, AllBindings;
      hide NamespaceOk, DefaultsOk;
      NamespacesHaveDefaults(namespaces, AllBindings(frames), Records());
      assert RegistryOk(Records());
      CachesMember(namespaces, ns);
      DefaultIsSet(ns, Records());
      GrowsReflexive(Records());
      hide Valid, ShapeOk, HasDefault, Grows;
      var same := prefix == None;
      if !same {
        same := HasDefaultPrefix(ns, prefix.value);
      }
      if same {
        status := Success;
        return status;
      }
      after := ChangeDefaultPrefix(ns, prefix.value, before);
    }

    /** The part of genxDeclareNamespace after its arguments were checked. */
    method RegisterNamespace(uri: CString, prefix: Option<CString>, before: Status)
      returns (ns: Namespace?, after: Status)
      requires Valid() && uri != [] && IsText(uri)
      modifies this`namespaces, this`prefixes, this`attributes, this`status, this`defaultNsDeclared, this`nextPrefix
      modifies namespaces
      ensures if after.Success? then Valid() else after == DuplicatePrefix || after == before
      ensures forall n :: n in namespaces ==> n in old(namespaces) || fresh(n)
      ensures Grows(old(Records()), Records()) && TagKept()
      ensures after.Success? <==> ns != null
      ensures after.Success? ==>
                && ns in namespaces && ns.name == uri
                && namespaces == (if ns in old(namespaces) then old(namespaces) else old(namespaces) + [ns])
                && nextPrefix == old(nextPrefix) + (if prefix.None? && ns !in old(namespaces) then 1 else 0)
                && Caches(namespaces) == old(Caches(namespaces))[ns := CachedOf(ns)]
                && NamespaceDeclared(old(Caches(namespaces)), ns, CachedOf(ns), prefix, old(nextPrefix), xmlnsEquals)
      ensures prefix.Some? && old(IsFree(prefix.value)) && before.Success? ==> after.Success?
      ensures prefix.Some? && prefix.value != [] ==> defaultNsDeclared == old(defaultNsDeclared)
      ensures after.Success? && prefix == Some([]) ==> ns.defaultDecl == xmlnsEquals
    {
      hide IsFree;
      hide Caches, Gathered, ValuesOk, InStep, RegistryOk, IsDecl, TextStatus, Decimal, Grows, Valid, ShapeOk;
      hide CachedOf, NewlyCached;
      ns := FindNamespace(uri);
      if ns != null {
        after := DeclareKnown(ns, prefix, before);
      } else {
        var chosen: CString := [];
        match prefix {
          case None =>
            chosen := [0x67] + Decimal(nextPrefix);
            nextPrefix := nextPrefix + 1;
          case Some(p) => chosen := p;
        }
        ns, after := AddNewNamespace(uri, chosen, before);
      }
      if !after.Success? {
        ns := null;
      }
    }

    // ---------- Declarations on the stack ----------

    /** Push a namespace and its declaration. */
    method PushPair(ns: Namespace?, decl: Attribute)
      requires ShapeOk() && frames != [] && BindingOk(Binding(ns, decl), Records())
      modifies this`stack, this`frames
      ensures ShapeOk() && frames == PushBinding(old(frames), Binding(ns, decl)) && Extends(old(frames), frames)
      ensures AllBindings(frames) == AllBindings(old(frames)) + [Binding(ns, decl)]
    {
      hide RegistryOk, FramesOk, Flatten, AllBindings, BindingOk;
      ghost var b := Binding(ns, decl);
      FlattenPushBinding(frames, b);
      AllBindingsPushBinding(frames, b);
      FramesOkPushBinding(frames, b, Records());
      stack := stack + [NamespaceEntry(ns)];
      stack := stack + [ADecl(decl)];
      frames := PushBinding(frames, b);
    }

    /** The tests of addNamespace. */
    method DecideFate(ns: Namespace, decl: Attribute) returns (fate: Fate)
      requires Valid() && frames != []
      ensures fate == FateOf(ns, decl, ns.declCount, ns.baroque, frames, xmlnsEquals)
    {
      hide RegistryOk, FramesOk, Flatten, AllBindings, LastConcerning, Count;
      if !ns.baroque {
        if ns.declCount > 0 {
          return InEffect;
        }
      } else {
        var inEffect := IsInEffect(stack, ns, decl, frames);
        if inEffect {
          return InEffect;
        }
      }
      var found, i := IsOnThisElement(stack, ns, frames);
      if found {
        return DeclaredHere;
      }
      var e := stack[i].element;
      fate := if e.ns == null && decl == xmlnsEquals then NotAllowed else Declared;
    }

    /** Put a declaration into the cached fields. */
    method CacheDeclaration(ns: Namespace, decl: Attribute)
      requires ns in namespaces
      modifies ns`declaration, ns`declCount
      ensures ns.declaration == decl && ns.declCount == old(ns.declCount) + 1
      ensures Caches(namespaces) ==
              old(Caches(namespaces))[ns := old(CachedOf(ns)).(declaration := decl, declCount := old(ns.declCount) + 1)]
    {
      ns.declaration := decl;
      ns.declCount := ns.declCount + 1;
    }

    /** Put a declaration on the stack and into the cached fields. */
    method PushDeclaration(ns: Namespace, decl: Attribute)
      requires Valid() && frames != [] && ns in namespaces && IsDecl(decl, Records())
      requires ns.baroque || (ns.declCount == 0 && decl == ns.defaultDecl)
      modifies this`stack, this`frames, ns`declaration, ns`declCount
      ensures Valid()
      ensures frames == PushBinding(old(frames), Binding(ns, decl)) && Extends(old(frames), frames)
      ensures ns.declaration == decl && ns.declCount == old(ns.declCount) + 1
      ensures Now() == Bound(old(Now()), ns, decl)
    {
      hide RegistryOk, FramesOk, Flatten, AllBindings, IsDecl, CachesOk, Caches;
      CachesMember(namespaces, ns);
      ghost var t, bs := Records(), AllBindings(frames);
      assert NamespaceOk(ns, bs, t);
      CachesOkPush(ns, ns.declaration, ns.declCount, ns.baroque, decl, bs, t);
      XmlIsNotFree(ns, bs, t);
      PushPair(ns, decl);
      CacheDeclaration(ns, decl);
      forall n | n in namespaces
        ensures NamespaceOk(n, AllBindings(frames), t)
      {
        if n != ns {
          CachesOkPushOther(n, n.declaration, n.declCount, n.baroque, Binding(ns, decl), bs, t);
        }
      }
    }

    lemma NameIsPlain(ns: Namespace, decl: Attribute)
      requires Valid() && ns in namespaces && IsDecl(decl, Records())
      ensures IsText(ns.name) && decl in attributes && decl.ns == null && IsDeclaration(decl)
    {
      DeclIsDeclaration(decl, Records());
    }

    /** addNamespace, last part: push the declaration and have it printed with the start tag. */
    method PushAndPrint(ns: Namespace, decl: Attribute) returns (r: Status)
      requires Valid() && frames != [] && ns in namespaces && IsDecl(decl, Records())
      requires ns.baroque || (ns.declCount == 0 && decl == ns.defaultDecl)
      modifies this`status, this`stack, this`frames, ns`declaration, ns`declCount, attributes
      decreases 1
      ensures Valid() && Extends(old(frames), frames)
      ensures frames == PushBinding(old(frames), Binding(ns, decl))
      ensures OthersUntouched(attributes, decl) && decl.provided && decl.value == Escaped(InValue, ns.name)
      ensures r == StatusAfter(Declared, old(decl.provided))
      ensures Now() == Bound(old(Now()), ns, decl)
      ensures Gathered(attributes) == old(Gathered(attributes))
      ensures old(ValuesOk()) ==> ValuesOk()
    {
      hide RegistryOk, FramesOk, Flatten, AllBindings, IsDecl, NamespaceOk, DefaultsOk, Escaped, TextStatus;
      hide SequenceOk, PushBinding;
      hide Bound, Now, IsDeclaration, ValuesOk, Gathered, Valid, ShapeOk;
      NameIsPlain(ns, decl);
      PushDeclaration(ns, decl);
      r := AddAttribute(decl, ns.name);
    }

    lemma DeclarationsAreCounted(ns: Namespace)
      requires Valid() && ns in namespaces
      ensures ns.declCount >= 0
    {
      CountIsNatural(ns, AllBindings(frames), Records());
    }

    /** addNamespace once the declaring attribute is known. */
    method Bind(ns: Namespace, decl: Attribute) returns (r: Status, ghost fate: Fate)
      requires Valid() && frames != [] && ns in namespaces && IsDecl(decl, Records())
      requires decl != ns.defaultDecl ==> ns.baroque
      modifies this`status, this`stack, this`frames, ns`declaration, ns`declCount, attributes
      decreases 2
      ensures Valid() && Extends(old(frames), frames)
      ensures fate == FateOf(ns, decl, old(ns.declCount), ns.baroque, old(frames), xmlnsEquals)
      ensures FramesAfter(fate, old(frames), frames, ns, decl) && AttributesAfter(fate, attributes, ns, decl)
      ensures Now() == Attempted(old(Now()), ns, decl, xmlnsEquals)
      ensures r == StatusAfter(fate, old(decl.provided))
      ensures Gathered(attributes) == old(Gathered(attributes))
      ensures old(ValuesOk()) ==> ValuesOk()
    {
      hide ValuesOk, Gathered, Caches, Bound;
      hide Valid, AllBindings, IsDecl, Escaped, FateOf, PushBinding;
      CachesMember(namespaces, ns);
      var found := DecideFate(ns, decl);
      fate := found;
      if found != Declared {
        status := StatusAfter(found, false);
        r := status;
      } else {
        FateMeansRoom(ns, decl, ns.declCount, ns.baroque, frames, xmlnsEquals);
        DeclarationsAreCounted(ns);
        r := PushAndPrint(ns, decl);
      }
    }

    /** addNamespace without a prefix of the caller's. */
    method AddDefaultNamespace(ns: Namespace) returns (r: Status, ghost fate: Fate)
      requires Valid() && frames != [] && ns in namespaces
      modifies this`status, this`stack, this`frames, ns`declaration, ns`declCount, attributes
      decreases 4
      ensures Valid() && Extends(old(frames), frames)
      ensures ns.defaultDecl != null
      ensures fate == FateOf(ns, ns.defaultDecl, old(ns.declCount), ns.baroque, old(frames), xmlnsEquals)
      ensures FramesAfter(fate, old(frames), frames, ns, ns.defaultDecl)
      ensures Now() == AttemptedByDefault(old(Now()), ns, xmlnsEquals)
      ensures r == StatusAfter(fate, old(if ns.defaultDecl == null then false else ns.defaultDecl.provided))
      ensures AttributesAfter(fate, attributes, ns, ns.defaultDecl)
      ensures Gathered(attributes) == old(Gathered(attributes))
      ensures old(ValuesOk()) ==> ValuesOk()
      ensures old(Plain() && InStep()) ==> Plain() && InStep() && (Count(AllBindings(frames), ns) > 0 || IsXml(ns))
    {
      hide ValuesOk, Gathered;
      hide RegistryOk, FramesOk, Flatten, AllBindings, CachesOk, Escaped, FateOf, TagInStep, SequenceOk, Extends;
      hide PlainBindings, PreWired, StepOf, DefaultsDiffer, Count, IsXml, IsDecl, AttemptedByDefault, Now;
      DefaultIsPlain(ns, AllBindings(frames), Records());
      DeclCountIs(ns, AllBindings(frames), Records());
      hide NamespaceOk, HasDefault;
      ghost var frames0, n := frames, ns.declCount;
      ghost var p, v := ProvidedOf(attributes), ValuesOf(attributes);
      StepIsTagInStep(attributes, AllBindings(frames), Top(frames).bindings);
      r, fate := BindDefault(ns);
      StepIsTagInStep(attributes, AllBindings(frames), Top(frames).bindings);
      hide ProvidedOf, ValuesOf, StepAfter, FramesAfter, AttributesAfter, ShapeOk;
      if old(Plain() && InStep()) {
        DefaultDeclared(
          ns, namespaces, Records(), frames0, frames, n, fate, p, ProvidedOf(attributes), v, ValuesOf(attributes));
      }
    }

    /** As AddDefaultNamespace, without regard to plain use. */
    method BindDefault(ns: Namespace) returns (r: Status, ghost fate: Fate)
      requires Valid() && frames != [] && ns in namespaces
      modifies this`status, this`stack, this`frames, ns`declaration, ns`declCount, attributes
      decreases 3
      ensures Valid() && Extends(old(frames), frames)
      ensures ns.defaultDecl != null
      ensures fate == FateOf(ns, ns.defaultDecl, old(ns.declCount), ns.baroque, old(frames), xmlnsEquals)
      ensures FramesAfter(fate, old(frames), frames, ns, ns.defaultDecl)
      ensures Now() == AttemptedByDefault(old(Now()), ns, xmlnsEquals)
      ensures r == StatusAfter(fate, old(if ns.defaultDecl == null then false else ns.defaultDecl.provided))
      ensures AttributesAfter(fate, attributes, ns, ns.defaultDecl)
      ensures StepAfter(
        fate, ns, ns.defaultDecl, old(ProvidedOf(attributes)), ProvidedOf(attributes), old(ValuesOf(attributes)), ValuesOf(attributes))
      ensures Gathered(attributes) == old(Gathered(attributes))
      ensures old(ValuesOk()) ==> ValuesOk()
    {
      hide ValuesOk, Gathered;
      hide RegistryOk, FramesOk, Flatten, AllBindings, CachesOk, Escaped, FateOf, SequenceOk, IsDecl, FramesAfter;
      hide Extends;
      hide Caches, Attempted;
      CachesMember(namespaces, ns);
      DefaultIsPlain(ns, AllBindings(frames), Records());
      hide NamespaceOk, HasDefault;
      r, fate := Bind(ns, ns.defaultDecl);
    }

    /** Normalise a value into the attribute. */
    method CollectInto(a: Attribute, value: CString) returns (r: Status)
      requires ShapeOk() && a in attributes && frames != []
      modifies a`value
      ensures r == TextStatus(value)
      ensures r.Success? ==> a.value == Escaped(InValue, value)
      ensures old(InStep()) && !IsDeclaration(a) ==> InStep()
      ensures IsDeclaration(a) || !a.provided ==> Gathered(attributes) == old(Gathered(attributes))
      ensures Gathered(attributes).Keys == old(Gathered(attributes).Keys)
    {
      hide Escaped, TextStatus, TextOf, IsDeclaration, ShapeOk, InStep, Gathered;
      var collector := new Collector();
      r := CollectValue(collector, value);
      if r.Success? {
        SetValue(a, TextOf(collector.buf[..]));
      } else {
        var collected: bytes := *; // what there was before the error
        SetValue(a, collected);
      }
    }

    method SetValue(a: Attribute, value: bytes)
      requires ShapeOk() && a in attributes && frames != []
      modifies a`value
      ensures a.value == value
      ensures old(InStep()) && !IsDeclaration(a) ==> InStep()
      ensures IsDeclaration(a) || !a.provided ==> Gathered(attributes) == old(Gathered(attributes))
      ensures Gathered(attributes).Keys == old(Gathered(attributes).Keys)
    {
      hide RegistryOk, FramesOk, Flatten, SequenceOk, AllBindings, StepOf, TagInStep, IsDeclaration;
      OwnAreDeclarations(frames, Records());
      ghost var bs, own, p, v := AllBindings(frames), Top(frames).bindings, ProvidedOf(attributes), ValuesOf(attributes);
      StepIsTagInStep(attributes, bs, own);
      a.value := value;
      if old(InStep()) && !IsDeclaration(a) {
        assert ProvidedOf(attributes) == p;
        StepValue(p, v, ValuesOf(attributes), bs, own, a);
        StepIsTagInStep(attributes, bs, own);
      }
    }

    /** Mark an attribute as provided. */
    method Provide(a: Attribute)
      requires a in attributes && frames != []
      modifies a`provided
      ensures a.provided
      ensures old(InStep()) && !IsDeclaration(a) && (a.ns != null ==> Count(AllBindings(frames), a.ns) > 0 || IsXml(a.ns)) ==>
                InStep()
      ensures Gathered(attributes) ==
              if IsDeclaration(a) then old(Gathered(attributes)) else old(Gathered(attributes))[a := a.value]
    {
      hide AllBindings, StepOf, TagInStep, IsDeclaration, Count, IsXml;
      ghost var bs, own, p, v := AllBindings(frames), Top(frames).bindings, ProvidedOf(attributes), ValuesOf(attributes);
      StepIsTagInStep(attributes, bs, own);
      a.provided := true;
      if old(InStep()) && !IsDeclaration(a) && (a.ns != null ==> Count(bs, a.ns) > 0 || IsXml(a.ns)) {
        StepProvided(p, v, bs, own, a);
        assert ProvidedOf(attributes) == p + {a} && ValuesOf(attributes) == v;
        StepIsTagInStep(attributes, bs, own);
      }
    }

    /** Make sure that the namespace of an attribute is declared; what goes wrong there is ignored. */
    method DeclareOwn(a: Attribute)
      requires Valid() && frames != [] && a in attributes && a.ns != null
      modifies this`status, this`stack, this`frames, a.ns`declaration, a.ns`declCount, attributes
      decreases 5
      ensures Valid() && Extends(old(frames), frames)
      ensures Now() == AttemptedByDefault(old(Now()), a.ns, xmlnsEquals)
      ensures a.provided == old(a.provided) && a.value == old(a.value)
      ensures old(ValuesOk()) ==> ValuesOk()
      ensures Gathered(attributes) == old(Gathered(attributes))
      ensures old(Plain() && InStep()) ==>
                Plain() && InStep() && (Count(AllBindings(frames), a.ns) > 0 || IsXml(a.ns))
    {
      hide RegistryOk, FramesOk, Flatten, SequenceOk, AllBindings, NamespaceOk, DefaultsOk, IsDecl, FateOf, Extends;
      hide Escaped;
      hide FramesAfter, IsAttributeValue, Plain, InStep, Now, AttemptedByDefault;
      EscapedIsValue(a.ns.name);
      NamespaceOfAttribute(a, Records());
      DefaultIsPlain(a.ns, AllBindings(frames), Records());
      var ignored, _ := AddDefaultNamespace(a.ns);
    }

    /** addAttribute once the value is collected: declare the namespace, then mark as provided. */
    method ProvideCollected(a: Attribute) returns (r: Status)
      requires Valid() && frames != [] && a in attributes
      modifies this`status, this`stack, this`frames, attributes
      modifies (if a.ns == null then {} else {a.ns})`declaration, (if a.ns == null then {} else {a.ns})`declCount
      decreases if a.ns == null then 0 else 6, 0
      ensures Valid() && Extends(old(frames), frames)
      ensures a.ns == null ==> frames == old(frames) && OthersUntouched(attributes, a)
      ensures a.ns != null ==> a.ns.defaultDecl == old(a.ns.defaultDecl) && a.ns.baroque == old(a.ns.baroque)
      ensures Now() == if a.ns == null then old(Now()) else AttemptedByDefault(old(Now()), a.ns, xmlnsEquals)
      ensures r == (if old(a.provided) then DuplicateAttribute else Success)
      ensures a.provided && a.value == old(a.value)
      ensures old(ValuesOk()) && IsAttributeValue(a.value) ==> ValuesOk()
      ensures IsDeclaration(a) ==> Gathered(attributes) == old(Gathered(attributes))
      ensures !IsDeclaration(a) && r.Success? ==> Gathered(attributes) == old(Gathered(attributes))[a := a.value]
      ensures !r.Success? ==> Gathered(attributes) == old(Gathered(attributes))
      ensures old(Plain() && InStep()) && !IsDeclaration(a) ==> Plain() && InStep()
    {
      hide IsAttributeValue, ShapeOk, DefaultsOk, NamespaceOk, Plain, InStep, IsDeclaration, Count, IsXml, Now;
      hide AttemptedByDefault;
      hide RegistryOk, FramesOk, Flatten, AllBindings, IsDecl, CachesOk, DefaultsDiffer, FateOf;
      if a.ns != null {
        DeclareOwn(a);
      }
      if a.provided {
        status := DuplicateAttribute;
        return status;
      }
      Provide(a);
      r := Success;
    }

    /** Give an attribute of the current element its value. */
    method AddAttribute(a: Attribute, value: CString) returns (r: Status)
      requires Valid() && frames != [] && a in attributes
      modifies this`status, this`stack, this`frames, attributes
      modifies (if a.ns == null then {} else {a.ns})`declaration, (if a.ns == null then {} else {a.ns})`declCount
      decreases if a.ns == null then 0 else 6, 1
      ensures Valid() && Extends(old(frames), frames)
      ensures a.ns == null ==> frames == old(frames) && OthersUntouched(attributes, a)
      ensures a.ns != null ==> a.ns.defaultDecl == old(a.ns.defaultDecl) && a.ns.baroque == old(a.ns.baroque)
      ensures TextStatus(value).Success? ==>
                && r == (if old(a.provided) then DuplicateAttribute else Success)
                && a.provided && a.value == Escaped(InValue, value)
      ensures !TextStatus(value).Success? ==> r == TextStatus(value) && frames == old(frames)
      ensures Now() == if a.ns == null || !TextStatus(value).Success? then old(Now())
                       else AttemptedByDefault(old(Now()), a.ns, xmlnsEquals)
      ensures old(ValuesOk()) && TextStatus(value).Success? ==> ValuesOk()
      ensures IsDeclaration(a) ==> Gathered(attributes) == old(Gathered(attributes))
      ensures !IsDeclaration(a) && r.Success? ==>
                && a !in old(Gathered(attributes))
                && Gathered(attributes) == old(Gathered(attributes))[a := Escaped(InValue, value)]
      ensures !r.Success? ==> Gathered(attributes).Keys == old(Gathered(attributes).Keys)
      ensures old(Plain() && InStep()) && !IsDeclaration(a) ==> Plain() && InStep()
    {
      EscapedIsValue(value);
      hide IsAttributeValue, ShapeOk, DefaultsOk, NamespaceOk, Plain, InStep, IsDeclaration, Count, IsXml, Now;
      hide AttemptedByDefault;
      hide RegistryOk, FramesOk, Flatten, AllBindings, IsDecl, CachesOk, Escaped, TextStatus, DefaultsDiffer, FateOf;
      hide TextOf;
      r := CollectInto(a, value);
      if !r.Success? {
        status := r;
        return r;
      }
      r := ProvideCollected(a);
    }

    /** addNamespace: declare a namespace on the top element, by `prefix` if there is one. */
    method AddNamespace(ns: Namespace, prefix: Option<CString>)
      returns (r: Status, ghost decl: Attribute?, ghost fate: Fate)
      requires Valid() && frames != [] && ns in namespaces
      modifies this`status, this`stack, this`frames, this`prefixes, this`attributes
      modifies ns`declaration, ns`declCount, ns`baroque, attributes
      ensures Valid() && Extends(old(frames), frames)
      ensures Grows(old(Records()), Records())
      ensures decl == null ==> frames == old(frames) && !r.Success?
      ensures Now() == if decl == null then old(Now()) else AttemptedBy(old(Now()), ns, decl, xmlnsEquals)
      ensures decl != null ==> fate == FateIn(FlaggedUnless(old(Now()), ns, decl), ns, decl, xmlnsEquals)
      ensures decl != null ==> IsDecl(decl, Records()) && DeclaresBy(ns, decl, prefix)
      ensures prefix == Some([]) ==> decl == xmlnsEquals && r == StatusAfter(fate, old(xmlnsEquals.provided))
      ensures decl != null ==>
                && fate == FateOf(ns, decl, old(ns.declCount), ns.baroque, old(frames), xmlnsEquals)
                && FramesAfter(fate, old(frames), frames, ns, decl)
                && (fate == Declared ==> decl.provided && decl.value == Escaped(InValue, ns.name))
                && (fate != Declared ==> r == StatusAfter(fate, false))
      ensures Gathered(attributes) == old(Gathered(attributes))
      ensures old(ValuesOk()) ==> ValuesOk()
      ensures old(Plain() && InStep()) && decl == ns.defaultDecl ==> Plain() && InStep()
      ensures ns.baroque == old(ns.baroque) || (decl != null && decl != ns.defaultDecl)
      ensures decl != null && old(UsesDefault(CachedOf(ns), prefix)) ==> decl == ns.defaultDecl
      ensures forall x :: x in attributes ==> x in old(attributes) || fresh(x)
    {
      hide ShapeOk, DefaultsOk, NamespaceOk, IsAttributeValue, TagInStep, PlainNamespaces, PlainBindings;
      hide IsDeclaration, AllBindings;
      hide RegistryOk, FateOf, IsDecl, FramesAfter, Escaped, DeclaresBy, Now, AttemptedBy, FateIn, FlaggedUnless;
      var d := ChooseDeclaration(ns, prefix);
      decl, fate := d, NotAllowed;
      if d == null {
        return status, d, fate;
      }
      if old(UsesDefault(CachedOf(ns), prefix)) {
        DefaultChosen(ns, d, prefix);
      }
      hide Valid, Plain, InStep, Grows, AttributesAfter, ValuesOk, Gathered;
      assert forall i :: 0 <= i < |attributes| ==> attributes[i] in attributes;
      r, fate := DeclareWith(ns, d);
    }

    /** From now on declarations of `ns` have to be looked for on the stack. */
    method MakeBaroque(ns: Namespace)
      requires Valid() && ns in namespaces
      modifies ns`baroque
      ensures Valid() && ns.baroque
      ensures Now() == Flagged(old(Now()), ns)
    {
      hide RegistryOk, FramesOk, Flatten, AllBindings, IsDecl, CachesOk, SequenceOk, DefaultsDiffer, Caches, CachedOf;
      CachesOkGrow(ns, ns.declaration, ns.declCount, ns.baroque, true, AllBindings(frames), Records(), Records());
      Flag(ns);
    }

    method Flag(ns: Namespace)
      requires ns in namespaces
      modifies ns`baroque
      ensures ns.baroque
      ensures ns in old(Caches(namespaces))
      ensures Caches(namespaces) == old(Caches(namespaces))[ns := old(Caches(namespaces))[ns].(baroque := true)]
    {
      ns.baroque := true;
    }

    /** addNamespace, after the declaring attribute was found. */
    method DeclareWith(ns: Namespace, decl: Attribute) returns (r: Status, ghost fate: Fate)
      requires Valid() && frames != [] && ns in namespaces && IsDecl(decl, Records())
      modifies this`status, this`stack, this`frames, ns`declaration, ns`declCount, ns`baroque, attributes
      ensures Valid() && Extends(old(frames), frames)
      ensures ns.baroque == (old(ns.baroque) || decl != ns.defaultDecl)
      ensures fate == FateOf(ns, decl, old(ns.declCount), ns.baroque, old(frames), xmlnsEquals)
      ensures FramesAfter(fate, old(frames), frames, ns, decl) && AttributesAfter(fate, attributes, ns, decl)
      ensures Now() == AttemptedBy(old(Now()), ns, decl, xmlnsEquals)
      ensures fate == FateIn(FlaggedUnless(old(Now()), ns, decl), ns, decl, xmlnsEquals)
      ensures r == StatusAfter(fate, old(decl.provided))
      ensures Gathered(attributes) == old(Gathered(attributes))
      ensures old(ValuesOk()) ==> ValuesOk()
      ensures old(Plain() && InStep()) && decl == ns.defaultDecl ==> Plain() && InStep()
    {
      hide RegistryOk, FramesOk, Flatten, AllBindings, IsDecl, CachesOk, FateOf, Escaped, Extends, SequenceOk;
      hide ValuesOk, Gathered, Plain, InStep, FramesAfter, NamespaceOk, DefaultsOk, ShapeOk, Caches, Attempted;
      CachesMember(namespaces, ns);
      if decl != ns.defaultDecl {
        MakeBaroque(ns);
        r, fate := Bind(ns, decl);
      } else {
        r, fate := AddDefaultNamespace(ns);
      }
    }

    /** `decl` is what `prefix`, or the default prefix if there is none, stands for. */
    ghost predicate DeclaresBy(ns: Namespace, decl: Attribute, prefix: Option<bytes>)
      reads ns`defaultDecl
    {
      match prefix
      case None => decl == ns.defaultDecl
      case Some(p) => if p == [] then decl == xmlnsEquals else decl.name == XMLNS_COLON + p
    }

    /** addNamespace, first part: the declaring attribute. */
    method ChooseDeclaration(ns: Namespace, prefix: Option<CString>) returns (decl: Attribute?)
      requires Valid() && frames != [] && ns in namespaces
      modifies this`status, this`prefixes, this`attributes
      ensures Valid() && Grows(old(Records()), Records())
      ensures TagKept()
      ensures prefix == Some([]) ==> decl == xmlnsEquals
      ensures decl == null ==> !status.Success?
      ensures decl != null ==> IsDecl(decl, Records()) && DeclaresBy(ns, decl, prefix)
    {
      hide Gathered, ValuesOk, InStep;
      hide RegistryOk, FramesOk, Flatten, AllBindings, NamespaceOk, IsDecl, SequenceOk, DefaultsOk;
      match prefix {
        case None =>
          DefaultIsPlain(ns, AllBindings(frames), Records());
          decl := ns.defaultDecl;
        case Some(p) =>
          if p == [] {
            XmlnsIsDecl(Records());
            decl := xmlnsEquals;
          } else {
            decl := DeclarePrefix(ns, p);
          }
      }
    }

    /** addNamespace: the declaring attribute for a prefix of the caller's. */
    method DeclarePrefix(ns: Namespace, prefix: CString) returns (decl: Attribute?)
      requires Valid() && ns in namespaces && prefix != []
      modifies this`status, this`prefixes, this`attributes
      ensures Valid() && Grows(old(Records()), Records())
      ensures TagKept()
      ensures decl == null ==> !status.Success?
      ensures decl != null ==> IsDecl(decl, Records()) && decl.name == XMLNS_COLON + prefix
    {
      hide Gathered, ValuesOk, InStep;
      hide RegistryOk, FramesOk, Flatten, AllBindings, NamespaceOk, IsDecl, SequenceOk, DefaultsDiffer, TypeOf;
      ghost var t := Records();
      var stored := StorePrefix(prefix, true);
      var after;
      decl, after := DeclareAnyAttribute(null, stored.value, ns.name, status);
      status := after;
      NamespacesOkGrow(namespaces, AllBindings(frames), t, Records());
      if decl == null || !after.Success? {
        decl := null;
      } else {
        PrefixedIsDecl(decl, prefix, Records());
      }
    }

    /** Put the signal that no default namespace is in effect on the stack. */
    method PushUnset() returns (r: Status)
      requires Valid() && frames != []
      modifies this`status, this`stack, this`frames, attributes
      ensures Valid() && Extends(old(frames), frames)
      ensures frames == PushBinding(old(frames), Binding(null, xmlnsEquals))
      ensures OthersUntouched(attributes, xmlnsEquals)
      ensures xmlnsEquals.provided && xmlnsEquals.value == []
      ensures Caches(namespaces) == old(Caches(namespaces))
      ensures Gathered(attributes) == old(Gathered(attributes))
    {
      hide AllBindings, Escaped, TextStatus, Caches, Valid, IsDeclaration, Gathered, PushBinding;
      NothingEscaped();
      PushSignal();
      r := AddAttribute(xmlnsEquals, []);
    }

    method PushSignal()
      requires Valid() && frames != []
      modifies this`stack, this`frames
      ensures Valid() && Extends(old(frames), frames) && xmlnsEquals in attributes && IsDeclaration(xmlnsEquals)
      ensures frames == PushBinding(old(frames), Binding(null, xmlnsEquals)) && xmlnsEquals.ns == null
    {
      hide RegistryOk, Flatten, AllBindings, CachesOk, FramesOk, DefaultsDiffer, Caches;
      ghost var t, bs := Records(), AllBindings(frames);
      XmlnsIsDecl(t);
      PushPair(null, xmlnsEquals);
      forall n | n in namespaces
        ensures NamespaceOk(n, AllBindings(frames), t)
      {
        CachesOkPushOther(n, n.declaration, n.declCount, n.baroque, Binding(null, xmlnsEquals), bs, t);
      }
      DeclIsPlain(xmlnsEquals, t);
      DeclIsDeclaration(xmlnsEquals, t);
    }

    /** The default namespace is that of `ns`; it is flagged, and the signal is pushed. */
    method OverrideDefault(ns: Namespace) returns (r: Status)
      requires Valid() && frames != [] && ns in namespaces
      modifies this`status, this`stack, this`frames, ns`baroque, attributes
      ensures Valid() && Extends(old(frames), frames)
      ensures ns.baroque && frames == PushBinding(old(frames), Binding(null, xmlnsEquals))
      ensures OthersUntouched(attributes, xmlnsEquals)
      ensures xmlnsEquals.provided && xmlnsEquals.value == []
      ensures Now() == Overridden(old(Now()), ns, xmlnsEquals)
      ensures Gathered(attributes) == old(Gathered(attributes))
    {
      hide RegistryOk, Flatten, AllBindings, CachesOk, FramesOk, IsDecl, DefaultsDiffer, SequenceOk, Extends, Caches;
      MakeBaroque(ns);
      r := PushUnset();
    }

    /** unsetDefaultNamespace: make sure no default namespace is in effect. */
    method UnsetDefault() returns (r: Status, ghost found: Option<Binding>)
      requires Valid() && frames != []
      modifies this`status, this`stack, this`frames, namespaces`baroque, attributes
      ensures Valid() && Extends(old(frames), frames)
      ensures found == LastBy(AllBindings(old(frames)), xmlnsEquals)
      ensures Now() == Undefaulted(old(Now()), xmlnsEquals)
      ensures forall n :: n in namespaces ==> n.baroque == (old(n.baroque) || (found.Some? && found.value.ns == n))
      ensures found.None? || found.value.ns == null ==>
                frames == old(frames) && OthersUntouched(attributes, null) && r == Success
      ensures found.Some? && found.value.ns != null ==>
                && frames == PushBinding(old(frames), Binding(null, xmlnsEquals))
                && OthersUntouched(attributes, xmlnsEquals)
                && xmlnsEquals.provided && xmlnsEquals.value == []
      ensures old(Plain()) ==> found.None?
      ensures found.None? ==> Plain() == old(Plain()) && InStep() == old(InStep())
      ensures old(XmlKept()) ==> XmlKept()
      ensures old(ValuesOk()) ==> ValuesOk()
      ensures Gathered(attributes) == old(Gathered(attributes))
    {
      hide RegistryOk, Flatten, AllBindings, NamespaceOk, LastBy, FramesOk, IsDecl, InStep, DefaultsOk, SequenceOk;
      hide PlainNamespaces, PlainBindings, UndeclaredBy, IsXml, Now, Undefaulted;
      XmlHasNoDefault(namespaces, AllBindings(frames), Records());
      if Plain() {
        PlainHasNoDefault(AllBindings(frames), namespaces, xmlnsEquals);
      }
      hide Plain;
      UndeclaredByXmlns(frames, Records());
      hide PushBinding, ShapeOk, BindingOk;
      var f := FindDefault(stack, xmlnsEquals, frames);
      found := f;
      r := UndeclareDefault(f);
    }

    /** unsetDefaultNamespace, after the scan. */
    method UndeclareDefault(found: Option<Binding>) returns (r: Status)
      requires Valid() && frames != [] && found == LastBy(AllBindings(frames), xmlnsEquals)
      modifies this`status, this`stack, this`frames, namespaces`baroque, attributes
      ensures Valid() && Extends(old(frames), frames)
      ensures Now() == Undefaulted(old(Now()), xmlnsEquals)
      ensures forall n :: n in namespaces ==> n.baroque == (old(n.baroque) || (found.Some? && found.value.ns == n))
      ensures found.None? || found.value.ns == null ==>
                frames == old(frames) && OthersUntouched(attributes, null) && r == Success
      ensures found.Some? && found.value.ns != null ==>
                && frames == PushBinding(old(frames), Binding(null, xmlnsEquals))
                && OthersUntouched(attributes, xmlnsEquals)
                && xmlnsEquals.provided && xmlnsEquals.value == []
      ensures found.None? ==> Plain() == old(Plain()) && InStep() == old(InStep())
      ensures Gathered(attributes) == old(Gathered(attributes))
    {
      hide RegistryOk, Flatten, AllBindings, NamespaceOk, LastBy, FramesOk, IsDecl, DefaultsOk, SequenceOk;
      hide PushBinding, Caches, Gathered, Overridden, Plain, InStep;
      LastByIsBinding(frames, xmlnsEquals, Records());
      hide ShapeOk;
      match found {
        case None =>
          r := Success;
        case Some(b) =>
          if b.ns == null {
            status := Success;
            r := status;
          } else {
            CachesMember(namespaces, b.ns);
            r := OverrideDefault(b.ns);
          }
      }
    }

    // ---------- Writing ----------

    /** The elements whose start tags have been written. */
    ghost function Printed(): seq<Frame>
      reads this`namespaces, this`elements, this`attributes, this`prefixes
      reads this`stack, this`frames, this`sequence, this`nowStarting, this`sender
      requires ShapeOk()
    {
      if sequence.InStartTag? || sequence.InAttributes? then Below(frames) else frames
    }

    /**
     What the caller received is the rendering of a sequence of tags and text that passes the
     check, with `printed` as its open elements.
     */
    ghost predicate WrittenWell(printed: seq<Frame>, rootDone: bool)
      reads this`sender, this`events, this`base, this`attributes, sender, attributes
    {
      && sender != null
      && sender.sent == base + RenderAll(events)
      && ValuesOk()
      && Check(events).Some?
      && Matches(Check(events).value.open, printed)
      && (Check(events).value.rootSeen <==> rootDone || printed != [])
    }

    /** No call has failed since the document was started. */
    ghost predicate Clean()
      reads this`namespaces, this`elements, this`attributes, this`prefixes, this`events, this`base
      reads this`stack, this`frames, this`sequence, this`nowStarting, this`sender
      reads sender, attributes
      requires ShapeOk()
    {
      && ValuesOk()
      && (!sequence.NoDocument? ==> WrittenWell(Printed(), sequence.AfterRoot?))
    }

    /** Namespaces were used plainly, and every tag was scoped. */
    ghost predicate Scoped()
      reads this`namespaces, this`elements, this`attributes, this`prefixes, this`events
      reads this`stack, this`frames, this`sequence, this`nowStarting, this`sender
      reads namespaces`baroque, namespaces`defaultDecl, attributes
      requires ShapeOk()
    {
      && Plain()
      && (sequence.InStartTag? || sequence.InAttributes? ==> InStep())
      && (!sequence.NoDocument? ==> ScopedAs(events, Printed()))
    }

    /** The pre-wired xml namespace has not been declared again. */
    ghost predicate XmlKept()
      reads this`namespaces, namespaces`baroque
    {
      forall ns :: ns in namespaces && IsXml(ns) ==> !ns.baroque
    }

    /** What the caller has asked for since the document was started. */
    ghost function Said(): seq<Action>
      reads this`events, this`sequence, this`nowStarting, this`attributes, attributes
    {
      Asked(events, if sequence.InStartTag? || sequence.InAttributes? then nowStarting else null, Gathered(attributes))
    }

    lemma NothingWritten()
      requires Valid() && sequence == NoDocument && frames == [] && events == []
      requires forall a :: a in attributes ==> !a.provided
      requires forall ns :: ns in namespaces ==> !ns.baroque && ns.defaultDecl != null && ns.defaultDecl != xmlnsEquals
      ensures Clean() && Scoped() && XmlKept() && Said() == []
    {
    }

    /** Hand `s` to the caller, after `said` since `before`. */
    method Send(s: bytes, ghost before: bytes, ghost said: bytes) returns (ghost all: bytes)
      requires sender != null && sender.sent == before + said
      modifies sender
      ensures all == said + s && sender.sent == before + all
    {
      Concat(before, said, s);
      sender.Send(s);
      all := said + s;
    }

    /** A name with the prefix that `decl` declares, if any. */
    method SendName(decl: Attribute?, name: bytes, ghost before: bytes, ghost said: bytes) returns (ghost all: bytes)
      requires sender != null && sender.sent == before + said
      modifies sender
      ensures all == said + Qualified(if decl == null then None else Some(PrefixName(decl)), name)
      ensures sender.sent == before + all
    {
      ghost var start := sender.sent;
      assert start + [] == start;
      ghost var own: bytes := [];
      if decl != null {
        own := Send(PrefixName(decl), start, own);
        own := Send([0x3a], start, own);
      }
      own := Send(name, start, own);
      all := said + own;
      Concat(before, said, own);
      if decl != null {
        assert [] + PrefixName(decl) == PrefixName(decl);
      }
    }

    /** What keeps the start tag that is being gathered from being printed as it stands, if anything. */
    ghost function Failure(): Status
      reads this`attributes, this`namespaces, attributes, namespaces
    {
      FirstFailure(attributes, Gathered(attributes), Caches(namespaces), xmlnsEquals)
    }

    /** A start tag is being gathered. */
    ghost predicate Starting()
      reads this`sequence
    {
      sequence.InStartTag? || sequence.InAttributes?
    }

    /** The namespaces of its attributes have been declared, or could not be. */
    ghost predicate Tried()
      reads this`sequence, this`frames, this`attributes, this`namespaces, attributes, namespaces
    {
      Starting() && frames != [] ==> AllTried(Gathered(attributes).Keys, Now(), xmlnsEquals)
    }

    /** What will come of writing it. */
    ghost function Outlook(): Status
      reads this`frames, this`attributes, this`namespaces, attributes, namespaces
    {
      if frames == [] then Success
      else FirstFailure(attributes, Gathered(attributes), Settled(Now(), xmlnsEquals).caches, xmlnsEquals)
    }

    /** Why an attribute that was gathered cannot be printed as it stands. */
    lemma FailureIsExplained()
      requires Valid() && frames != [] && AllTried(Gathered(attributes).Keys, Now(), xmlnsEquals)
      ensures Explained(Failure(), attributes, Gathered(attributes).Keys, Now(), xmlnsEquals)
    {
      hide RegistryOk, FramesOk, Flatten, AllBindings, SequenceOk, NamespaceOk, DefaultsOk, AllTried, FailureOf;
      hide Unprintable, Outcome;
      hide Caches, Gathered, Explained, FirstFailure;
      var s, gathered := Now(), Gathered(attributes);
      forall a | a in attributes && a in gathered && a.ns != null
        ensures a.ns in s.caches
        ensures FailureOf(s.caches[a.ns], xmlnsEquals) ==
                if Unprintable(a, s, xmlnsEquals) then Outcome(a, s, xmlnsEquals) else Success
      {
        IsLookedAt(a, Records());
        NamespaceOfAttribute(a, Records());
        FailureCause(a, gathered.Keys, s, Records());
      }
      FirstFailureExplained(attributes, gathered, s, xmlnsEquals);
    }

    /** In plain use every attribute can be printed. */
    lemma PlainPrints()
      requires Valid() && frames != [] && Plain() && InStep()
      ensures Failure().Success?
    {
      hide RegistryOk, FramesOk, Flatten, AllBindings, SequenceOk, NamespaceOk, DefaultsDiffer;
      hide Caches, Gathered, FirstFailure, PlainNamespaces, PlainBindings, IsXml, Count;
      forall a | a in attributes && a in Gathered(attributes) && a.ns != null && a.ns in Caches(namespaces)
        ensures FailureOf(Caches(namespaces)[a.ns], xmlnsEquals).Success?
      {
        IsLookedAt(a, Records());
        NamespaceOfAttribute(a, Records());
        PlainDeclaration(Records(), AllBindings(frames), a.ns);
      }
      AllPrint(attributes, Gathered(attributes), Caches(namespaces), xmlnsEquals);
    }

    lemma TriedStays(was: Scene)
      requires Later(was, Now()) && AllTried(Gathered(attributes).Keys, was, xmlnsEquals)
      ensures Tried()
    {
      hide AllTried, Later;
      StillTried(Gathered(attributes).Keys, was, Now(), xmlnsEquals);
    }

    /** The loop of writeStartTag. */
    method SendAttributes() returns (r: Status)
      requires ShapeOk() && sender != null
      modifies this`status, sender
      ensures ShapeOk()
      ensures r == Failure()
      ensures r.Success? ==> sender.sent == old(sender.sent) + RenderAttributes(PrintedAttributes(attributes))
    {
      hide RenderAttributes, RenderAttribute, PrintedAttributes, PrintedAttribute, FirstFailure, FailureOf;
      hide RegistryOk, FramesOk, Flatten, AllBindings, SequenceOk, Caches, Gathered, CachedOf;
      ghost var before := sender.sent;
      assert before + RenderAttributes(PrintedAttributes([])) == before by {
        NothingPrinted();
      }
      ghost var g, m := Gathered(attributes), Caches(namespaces);
      NothingFails(g, m, xmlnsEquals);
      assert attributes[..0] == [];
      var i := 0;
      while i < |attributes|
        modifies this`status, sender
        invariant 0 <= i <= |attributes| && ShapeOk()
        invariant sender.sent == before + RenderAttributes(PrintedAttributes(attributes[..i]))
        invariant FirstFailure(attributes[..i], g, m, xmlnsEquals).Success?
      {
        var a := attributes[i];
        assert attributes[..i + 1] == attributes[..i] + [a];
        PrintedPush(attributes[..i], a);
        FirstFailurePush(attributes[..i], a, g, m, xmlnsEquals);
        if a.ns != null {
          IsLookedAt(a, Records());
        }
        if a.provided {
          if a.ns != null {
            var failure := CannotPrint(a.ns);
            if !failure.Success? {
              StaysFailed(attributes, i + 1, g, m, xmlnsEquals);
              status := failure;
              return status;
            }
          }
          SendAttribute(a);
          Concat(before, RenderAttributes(PrintedAttributes(attributes[..i])), RenderAttribute(PrintedAttribute(a)));
        }
        i := i + 1;
      }
      assert attributes[..i] == attributes;
      r := Success;
    }

    /** The test of writeStartTag, and what its expressions for the prefix run into. */
    method CannotPrint(ns: Namespace) returns (r: Status)
      ensures r == FailureOf(CachedOf(ns), xmlnsEquals)
      ensures r.Success? ==> ns.declaration != null
    {
      if ns.baroque && ns.declaration == xmlnsEquals {
        r := AttributeInDefaultNamespace;
      } else if ns.declaration == null {
        r := NullDeclaration; // the source would follow the null pointer
      } else if ns.declaration == xmlnsEquals {
        r := ReadPastName; // the source would print what lies behind the terminator
      } else {
        r := Success;
      }
    }

    method SendAttribute(a: Attribute)
      requires sender != null && (a.ns != null ==> a.ns.declaration != null)
      modifies sender
      ensures sender.sent == old(sender.sent) + RenderAttribute(PrintedAttribute(a))
    {
      hide Qualified, KeyOf, PrefixName;
      NameInKey(a);
      ghost var start := sender.sent;
      assert start + [] == start;
      ghost var own := Send([0x20], start, []);
      own := SendName(if a.ns != null then a.ns.declaration else null, a.name, start, own);
      own := Send([0x3d, 0x22], start, own);
      own := Send(a.value, start, own);
      own := Send([0x22], start, own);
    }

    /** writeStartTag: the namespace of the element; what goes wrong there is ignored. */
    method SettleNamespace(e: Element)
      requires Valid() && frames != [] && e == Top(frames).element && e.ns != null
      modifies this`status, this`stack, this`frames, e.ns`declaration, e.ns`declCount, attributes
      ensures Valid() && Extends(old(frames), frames)
      ensures old(ValuesOk()) ==> ValuesOk()
      ensures Gathered(attributes) == old(Gathered(attributes))
      ensures e.ns in namespaces
      ensures Now() == Settled(old(Now()), xmlnsEquals)
      ensures Count(AllBindings(frames), e.ns) > 0 || (IsXml(e.ns) && !e.ns.baroque)
      ensures old(Plain() && InStep()) ==> Plain() && InStep()
    {
      hide Gathered;
      hide RegistryOk, FramesOk, Flatten, AllBindings, CachesOk, Escaped, DefaultsDiffer, IsDecl, IsAttributeValue;
      hide FateOf, Extends, Plain, InStep, Caches, AttemptedByDefault;
      ElementIsKnown(frames, Records());
      DeclCountIs(e.ns, AllBindings(frames), Records());
      EscapedIsValue(e.ns.name);
      ghost var n := e.ns.declCount;
      var ignored, fate := AddDefaultNamespace(e.ns);
      DeclaredAfterwards(e.ns, e.ns.defaultDecl, n, e.ns.baroque, old(frames), frames, xmlnsEquals);
    }

    /** writeStartTag: no namespace for an element in none. */
    method SettleNoNamespace()
      requires Valid() && frames != [] && Top(frames).element.ns == null
      modifies this`status, this`stack, this`frames, namespaces`baroque, attributes
      ensures Valid() && Extends(old(frames), frames)
      ensures Now() == Settled(old(Now()), xmlnsEquals)
      ensures old(ValuesOk()) ==> ValuesOk()
      ensures Gathered(attributes) == old(Gathered(attributes))
      ensures old(Plain() && InStep()) ==> Plain() && InStep()
      ensures old(XmlKept()) ==> XmlKept()
    {
      hide Gathered;
      hide RegistryOk, FramesOk, Flatten, AllBindings, CachesOk, Escaped, DefaultsDiffer, IsDecl, IsAttributeValue;
      hide Extends;
      hide Plain, InStep, NamespaceOk, SequenceOk, XmlKept, Undefaulted, Caches;
      EscapedIsValue([]);
      NothingEscaped();
      var ignored, found := UnsetDefault();
    }

    /** writeStartTag: what is sent. */
    method SendStartTag(e: Element, decl: Attribute?) returns (r: Status, ghost tag: Event)
      requires ShapeOk() && sender != null
      modifies this`status, this`events, sender
      ensures ShapeOk()
      ensures tag == StartTag(
                if decl == null then None else Some(PrefixName(decl)),
                if e.ns == null then None else Some(e.ns.name),
                e.kind,
                PrintedAttributes(attributes))
      ensures r == Failure()
      ensures r.Success? ==>
                events == old(events) + [tag] && sender.sent == old(sender.sent) + Render(tag)
    {
      hide ShapeOk, Qualified, RenderAttributes, PrintedAttributes, PrefixName, Render, Failure;
      tag := StartTag(
        if decl == null then None else Some(PrefixName(decl)),
        if e.ns == null then None else Some(e.ns.name),
        e.kind,
        PrintedAttributes(attributes));
      ghost var start := sender.sent;
      assert start + [] == start;
      ghost var all := Send([0x3c], start, []);
      all := SendName(decl, e.kind, start, all);
      r := SendAttributes();
      if !r.Success? {
        return r, tag;
      }
      Concat(start, all, RenderAttributes(PrintedAttributes(attributes)));
      all := all + RenderAttributes(PrintedAttributes(attributes));
      all := Send([0x3e], start, all);
      StartTagRendered(tag);
      events := events + [tag];
    }

    lemma StartTagRendered(tag: Event)
      requires tag.StartTag?
      ensures Render(tag) == [] + [0x3c] + Qualified(tag.prefix, tag.kind) + RenderAttributes(tag.attributes) + [0x3e]
    {
      assert [] + [0x3c] == [0x3c];
    }

    /** The prefix read from the cached field is that of the declarations in effect. */
    lemma PrefixToPrint(e: Element)
      requires Valid()
      requires e.ns != null ==>
                 e.ns in namespaces && (Count(AllBindings(frames), e.ns) > 0 || (IsXml(e.ns) && !e.ns.baroque))
      ensures var decl := if e.ns == null || e.ns.declaration == xmlnsEquals then null else e.ns.declaration;
              && ElementPrefix(e, AllBindings(frames)) == (if decl == null then None else Some(PrefixName(decl)))
              && (e.ns != null ==> e.ns.declaration != null)
    {
      hide RegistryOk, FramesOk, Flatten, AllBindings, NamespaceOk, IsDecl, IsXml, Count, ElementPrefix, PrefixName;
      hide DefaultsOk;
      if e.ns == null {
        NoPrefix(e, AllBindings(frames));
      } else {
        CachedPrefix(e, AllBindings(frames), Records());
        PrefixNameIs(e.ns.declaration);
      }
    }

    /** writeStartTag: bring the declarations up to date; `decl` gives the prefix to print, if any. */
    method Settle(e: Element) returns (decl: Attribute?)
      requires Valid() && Starting() && frames != [] && e == Top(frames).element
      modifies this`status, this`stack, this`frames, namespaces`declaration, namespaces`declCount, namespaces`baroque, attributes
      ensures Valid() && Extends(old(frames), frames)
      ensures old(ValuesOk()) ==> ValuesOk()
      ensures Gathered(attributes) == old(Gathered(attributes))
      ensures e.ns != null ==> e.ns in namespaces && (Count(AllBindings(frames), e.ns) > 0 || IsXml(e.ns))
      ensures Now() == Settled(old(Now()), xmlnsEquals)
      ensures ElementPrefix(e, AllBindings(frames)) == if decl == null then None else Some(PrefixName(decl))
      ensures decl == if e.ns == null || e.ns.declaration == xmlnsEquals then null else e.ns.declaration
      ensures old(Plain() && InStep()) ==> Plain() && InStep()
      ensures old(XmlKept()) ==> XmlKept()
      ensures Failure() == old(Outlook())
      ensures old(Tried()) ==> Tried() && Explained(Failure(), attributes, Gathered(attributes).Keys, Now(), xmlnsEquals)
      ensures old(Plain() && InStep()) ==> Failure().Success?
    {
      hide AllBindings, IsXml, Count, ElementPrefix, PrefixName, Plain, InStep, XmlKept, Gathered, ValuesOk, Caches;
      hide Settled;
      hide Valid, FirstFailure, AllTried, Explained;
      ghost var was := Now();
      decl := BeSettled(e);
      if old(Tried()) {
        SettledIsLater(was, xmlnsEquals);
        TriedStays(was);
        FailureIsExplained();
      }
      if old(Plain() && InStep()) {
        PlainPrints();
      }
    }

    method BeSettled(e: Element) returns (decl: Attribute?)
      requires Valid() && frames != [] && e == Top(frames).element
      modifies this`status, this`stack, this`frames, namespaces`declaration, namespaces`declCount, namespaces`baroque, attributes
      ensures Valid() && Extends(old(frames), frames)
      ensures old(ValuesOk()) ==> ValuesOk()
      ensures Gathered(attributes) == old(Gathered(attributes))
      ensures e.ns != null ==> e.ns in namespaces && (Count(AllBindings(frames), e.ns) > 0 || IsXml(e.ns))
      ensures Now() == Settled(old(Now()), xmlnsEquals)
      ensures ElementPrefix(e, AllBindings(frames)) == if decl == null then None else Some(PrefixName(decl))
      ensures decl == if e.ns == null || e.ns.declaration == xmlnsEquals then null else e.ns.declaration
      ensures old(Plain() && InStep()) ==> Plain() && InStep()
      ensures old(XmlKept()) ==> XmlKept()
    {
      hide AllBindings, IsXml, Count, Extends, ElementPrefix, PrefixName, Plain, InStep, XmlKept, Gathered, ValuesOk;
      hide RegistryOk, FramesOk, Flatten, NamespaceOk, DefaultsOk, SequenceOk, Now, Settled;
      ElementIsKnown(frames, Records());
      hide ShapeOk, Valid;
      if e.ns != null {
        SettleNamespace(e);
      } else {
        SettleNoNamespace();
      }
      PrefixToPrint(e);
      status := Success;
      decl := null;
      if e.ns != null && e.ns.declaration != xmlnsEquals {
        decl := e.ns.declaration;
      }
    }

    /** The start tag of a plain use is scoped. */
    lemma TagScoped(events0: seq<Event>, decl: Attribute?, tag: Event)
      requires Valid() && Plain() && InStep() && ScopedAs(events0, Below(frames))
      requires var e := Top(frames).element;
               && (e.ns != null ==> e.ns in namespaces && (Count(AllBindings(frames), e.ns) > 0 || IsXml(e.ns)))
               && decl == (if e.ns == null || e.ns.declaration == xmlnsEquals then null else e.ns.declaration)
               && tag == StartTag(
                    if decl == null then None else Some(PrefixName(decl)),
                    if e.ns == null then None else Some(e.ns.name), e.kind, PrintedAttributes(attributes))
      ensures ScopedAs(events0 + [tag], frames)
    {
      hide RegistryOk, FramesOk, Flatten, AllBindings, NamespaceOk, IsXml, Count, PrefixName, ScopedAs, SequenceOk;
      hide DefaultsDiffer;
      hide PlainNamespaces, PlainBindings, TagInStep, PrintedAttributes;
      var e := Top(frames).element;
      assert PlainState(Records(), AllBindings(frames));
      hide PlainState;
      if e.ns != null {
        PlainDeclaration(Records(), AllBindings(frames), e.ns);
      }
      ScopedStartTag(Records(), events0, frames, tag);
    }

    /** The start tag just sent keeps the document in order. */
    lemma TagWritten(events0: seq<Event>, tag: Event)
      requires Valid() && sender != null && frames != [] && ValuesOk()
      requires events == events0 + [tag] && sender.sent == base + RenderAll(events0) + Render(tag)
      requires Check(events0).Some? && Matches(Check(events0).value.open, Below(frames))
      requires Check(events0).value.rootSeen <==> Below(frames) != []
      requires tag.StartTag? && tag.attributes == PrintedAttributes(attributes) && tag.kind == Top(frames).element.kind
      requires tag.prefix == ElementPrefix(Top(frames).element, AllBindings(frames))
      ensures WrittenWell(frames, false)
    {
      hide RegistryOk, FramesOk, Flatten, AllBindings, DefaultsOk, IsAttributeValue, NamespaceOk, SequenceOk;
      hide Matches, Check, RenderAll, Render, PrintedAttributes, ElementPrefix;
      TagAttributesAreFine(Records());
      CheckStartTag(events0, frames, tag);
      RenderPush(events0, tag);
      Concat(base, RenderAll(events0), Render(tag));
    }

    /** While a start tag is gathered, the top element is the one starting. */
    lemma CoveredByStart()
      requires Valid() && (sequence.InStartTag? || sequence.InAttributes?)
      ensures ShapeOk() && RegistryOk(Records()) && sender != null
      ensures frames != [] && nowStarting == Top(frames).element && Covered(Below(frames))
      ensures (nowStarting.ns != null ==> Count(AllBindings(frames), nowStarting.ns) > 0 || IsXml(nowStarting.ns)) ==>
                Covered(frames)
    {
    }

    /** writeStartTag: settle the declarations, then send the tag. */
    method SettleAndSend(e: Element) returns (r: Status, ghost decl: Attribute?, ghost tag: Event)
      requires Valid() && Starting() && frames != [] && e == Top(frames).element && sender != null
      modifies this`status, this`stack, this`frames, this`events, sender, attributes
      modifies namespaces`declaration, namespaces`declCount, namespaces`baroque
      ensures Valid() && Extends(old(frames), frames)
      ensures old(ValuesOk()) ==> ValuesOk()
      ensures Gathered(attributes) == old(Gathered(attributes))
      ensures e.ns != null ==> e.ns in namespaces && (Count(AllBindings(frames), e.ns) > 0 || IsXml(e.ns))
      ensures Now() == Settled(old(Now()), xmlnsEquals)
      ensures ElementPrefix(e, AllBindings(frames)) == if decl == null then None else Some(PrefixName(decl))
      ensures decl == if e.ns == null || e.ns.declaration == xmlnsEquals then null else e.ns.declaration
      ensures old(Plain() && InStep()) ==> Plain() && InStep()
      ensures old(XmlKept()) ==> XmlKept()
      ensures tag == StartTag(
                if decl == null then None else Some(PrefixName(decl)), UriOf(e.ns), e.kind, PrintedAttributes(attributes))
      ensures r == old(Outlook())
      ensures old(Tried()) ==> Tried() && Explained(r, attributes, Gathered(attributes).Keys, Now(), xmlnsEquals)
      ensures old(Plain() && InStep()) ==> r.Success?
      ensures r.Success? ==> events == old(events) + [tag] && sender.sent == old(sender.sent) + Render(tag)
    {
      hide AllBindings, Render, PrintedAttributes, ElementPrefix, PrefixName, XmlKept, ValuesOk, Settled, Extends;
      hide Outlook, Failure, Tried, Explained, Now;
      hide Plain, InStep, Count, IsXml, Gathered, SequenceOk, RegistryOk, FramesOk, Flatten, NamespaceOk, DefaultsOk;
      var d := Settle(e);
      hide ShapeOk;
      decl := d;
      r, tag := SendStartTag(e, d);
    }

    /** Write out the start tag that has been gathered. */
    method WriteStartTag() returns (r: Status)
      requires Valid() && (sequence.InStartTag? || sequence.InAttributes?)
      modifies this`status, this`stack, this`frames, this`events, sender, attributes
      modifies namespaces`declaration, namespaces`declCount, namespaces`baroque
      ensures Valid() && Extends(old(frames), frames) && Covered(frames)
      ensures r.Success? && old(Clean()) ==> WrittenWell(frames, false)
      ensures r.Success? && old(Scoped()) ==> Plain() && ScopedAs(events, frames)
      ensures old(XmlKept()) ==> XmlKept()
      ensures Now() == Settled(old(Now()), xmlnsEquals)
      ensures Gathered(attributes) == old(Gathered(attributes))
      ensures r == old(Outlook())
      ensures old(Tried()) ==> Tried() && Explained(r, attributes, Gathered(attributes).Keys, Now(), xmlnsEquals)
      ensures old(Scoped()) ==> r.Success?
      ensures r.Success? ==> Actions(events) == old(Said())
    {
      hide Settled, Outlook, Tried, Explained, Now;
      hide AllBindings, Matches, Check, RenderAll, Render, PrintedAttributes, ElementPrefix, PrefixName, XmlKept;
      hide ValuesOk;
      hide Plain, InStep, ScopedAs, Count, IsXml, Gathered, Pairs, Ordinary, Actions;
      hide RegistryOk, FramesOk, Flatten, NamespaceOk, DefaultsOk, Covered, SequenceOk, Valid;
      CoveredByStart();
      ghost var events0 := events;
      ghost var decl, tag;
      r, decl, tag := SettleAndSend(nowStarting);
      CoveredByStart();
      hide ShapeOk;
      if r.Success? {
        PrintedAreGathered(Records());
        ActionsPush(events0, tag);
        if old(Clean()) {
          TagWritten(events0, tag);
        }
        if old(Scoped()) {
          TagScoped(events0, decl, tag);
        }
      }
    }

    /** Start a document. */
    method StartDocument(out: Sender) returns (r: Status)
      requires Valid()
      modifies this`status, this`sequence, this`sender, this`events, this`base
      ensures Valid()
      ensures old(sequence) == NoDocument ==>
                r == Success && sequence == BeforeRoot && sender == out && events == [] && base == out.sent
      ensures old(sequence) != NoDocument ==> r == SequenceError && sequence == old(sequence) && sender == old(sender)
      ensures old(Tried()) ==> Tried()
      ensures r.Success? && old(Clean()) ==> Clean()
      ensures r.Success? && old(Scoped()) ==> Scoped()
      ensures r.Success? ==> Said() == []
    {
      hide Valid, ShapeOk, Plain, AllBindings, ValuesOk, InStep, Gathered, Now, AllTried;
      if sequence != NoDocument {
        status := SequenceError;
        return status;
      }
      NothingYet();
      assert out.sent + [] == out.sent;
      Begin(out);
      r := Success;
    }

    method Begin(out: Sender)
      requires Valid() && sequence == NoDocument
      modifies this`sequence, this`sender, this`events, this`base
      ensures Valid() && sequence == BeforeRoot && sender == out && events == [] && base == out.sent && frames == []
    {
      hide RegistryOk, FramesOk, Flatten, DefaultsOk, NamespaceOk, AllBindings;
      sequence, sender := BeforeRoot, out;
      events, base := [], out.sent;
    }

    /** Forget which attributes were provided. */
    method ClearProvided()
      requires Valid()
      modifies attributes
      ensures Valid() && Now() == old(Now())
      ensures forall a :: a in attributes ==> !a.provided
      ensures !Starting() ==> Said() == old(Said())
      ensures Gathered(attributes) == map[]
      ensures old(Clean()) ==> Clean()
      ensures old(Scoped()) && !sequence.InStartTag? && !sequence.InAttributes? ==> Scoped()
    {
      hide IsDeclaration, Now, AllBindings, NamespaceOk, DefaultsOk;
      hide RegistryOk, FramesOk, Flatten, SequenceOk, Check, Matches, RenderAll, IsAttributeValue, Plain, InStep;
      hide ScopedAs;
      for i := 0 to |attributes|
        invariant forall k :: 0 <= k < i ==> !attributes[k].provided
      {
        attributes[i].provided := false;
      }
    }

    /** The step that ends a start tag before anything else is written. */
    method CloseStartTag() returns (r: Status)
      requires Valid() && (sequence.InStartTag? || sequence.InAttributes?)
      modifies this`status, this`stack, this`frames, this`events, this`sequence, sender, attributes
      modifies namespaces`declaration, namespaces`declCount, namespaces`baroque
      ensures Valid() && Extends(old(frames), frames)
      ensures if r.Success? then sequence == InContent else sequence == old(sequence)
      ensures Now() == Settled(old(Now()), xmlnsEquals) && r == old(Outlook())
      ensures old(Tried()) ==> Tried()
      ensures old(Scoped()) ==> r.Success?
      ensures r.Success? && old(Clean()) ==> Clean()
      ensures r.Success? && old(Scoped()) ==> Scoped()
      ensures old(XmlKept()) ==> XmlKept()
      ensures r.Success? ==> Said() == old(Said())
    {
      hide Actions, Valid, Covered, Extends, WrittenWell, Plain, ScopedAs, Clean, Scoped, XmlKept, Said, ShapeOk, Now;
      hide Settled, Outlook, Explained, Tried;
      r := WriteStartTag();
      if r.Success? {
        BeInContent();
      } else {
        status := r;
      }
    }

    /** The start tag has been written. */
    method BeInContent()
      requires Valid() && (sequence.InStartTag? || sequence.InAttributes?) && Covered(frames)
      modifies this`sequence
      ensures Valid() && sequence == InContent && Tried()
      ensures old(WrittenWell(frames, false)) ==> Clean()
      ensures old(Plain() && ScopedAs(events, frames)) ==> Scoped()
      ensures Said() == Actions(events)
    {
      hide Gathered, Actions, RegistryOk, FramesOk, Flatten, AllBindings, DefaultsOk, NamespaceOk, Covered;
      hide Check, Matches, RenderAll, ScopedAs, Plain, InStep;
      sequence := InContent;
    }

    /** genxStartElement and genxEndElement, first part: where in the document are we? */
    method LeaveStartTag(starting: bool) returns (r: Status)
      requires Valid()
      modifies this`status, this`stack, this`frames, this`events, this`sequence
      modifies (if sender == null then {} else {sender}), attributes
      modifies namespaces`declaration, namespaces`declCount, namespaces`baroque
      ensures Valid()
      ensures r.Success? <==> sequence == InContent || (starting && sequence == BeforeRoot)
      ensures old(sequence) == NoDocument || old(sequence) == AfterRoot || (old(sequence) == BeforeRoot && !starting) ==>
                r == SequenceError
      ensures old(frames) == [] ==> frames == [] && sequence == old(sequence)
      ensures old(frames) != [] ==> Extends(old(frames), frames)
      ensures Now() == Left(old(Now()), old(Starting()), xmlnsEquals)
      ensures r == if old(Starting()) then old(Outlook())
                   else if old(sequence) == InContent || (starting && old(sequence) == BeforeRoot) then Success
                   else SequenceError
      ensures old(Tried()) ==> Tried()
      ensures old(Starting() && Scoped()) ==> r.Success?
      ensures r.Success? && old(Clean()) ==> Clean()
      ensures r.Success? && old(Scoped()) ==> Scoped()
      ensures old(XmlKept()) ==> XmlKept()
      ensures r.Success? ==> Said() == old(Said())
    {
      hide Said, Caches, Settled, Outlook, Tried;
      hide RegistryOk, FramesOk, Flatten, AllBindings, DefaultsDiffer, NamespaceOk, IsAttributeValue;
      hide Check, Matches, RenderAll, Covered, ScopedAs, Plain, InStep, XmlKept;
      match sequence {
        case NoDocument | AfterRoot =>
          status := SequenceError;
          r := status;
        case BeforeRoot =>
          if starting {
            r := Success;
          } else {
            status := SequenceError;
            r := status;
          }
        case InStartTag | InAttributes =>
          r := CloseStartTag();
        case InContent =>
          r := Success;
      }
    }

    /** Start an element. */
    method StartElement(e: Element) returns (r: Status)
      requires Valid() && e in elements
      modifies this`status, this`stack, this`frames, this`events, this`sequence, this`nowStarting
      modifies (if sender == null then {} else {sender}), attributes
      modifies namespaces`declaration, namespaces`declCount, namespaces`baroque
      ensures Valid()
      ensures old(sequence) == NoDocument || old(sequence) == AfterRoot ==> r == SequenceError
      ensures r.Success? ==> sequence == InStartTag && frames != [] && Top(frames) == Frame(e, [])
      ensures r.Success? && old(frames) != [] ==> Extends(old(frames), Below(frames))
      ensures r.Success? && old(frames) == [] ==> Below(frames) == []
      ensures old(sequence) == BeforeRoot || old(sequence) == InContent ==> r.Success?
      ensures old(Starting()) ==> r == old(Outlook())
      ensures r.Success? ==> Now() == Opened(Left(old(Now()), old(Starting()), xmlnsEquals), e)
      ensures r.Success? ==> forall a :: a in attributes ==> !a.provided
      ensures old(Tried()) ==> Tried()
      ensures old(Scoped()) ==> !GoesWrong(r)
      ensures r.Success? && old(Clean()) ==> Clean()
      ensures r.Success? ==> Said() == old(Said()) + [Open(UriOf(e.ns), e.kind, {})]
      ensures r.Success? && old(Scoped()) ==> Scoped()
      ensures old(XmlKept()) ==> XmlKept()
    {
      hide Gathered, Actions;
      hide RegistryOk, FramesOk, Flatten, AllBindings, DefaultsOk, NamespaceOk, SequenceOk, Extends, Below;
      hide Clean, Scoped, XmlKept, Now, Left, Opened, Outlook, Tried, Valid, Said;
      r := LeaveStartTag(true);
      if r.Success? {
        ClearProvided();
        r := PushElement(e);
      }
    }

    /** Push an element and a separator. */
    method PushElement(e: Element) returns (r: Status)
      requires Valid() && e in elements && (sequence == BeforeRoot || sequence == InContent)
      modifies this`stack, this`frames, this`nowStarting, this`sequence
      ensures Valid() && r == Success
      ensures frames != [] && Below(frames) == old(frames) && Top(frames) == Frame(e, [])
      ensures nowStarting == e && sequence == InStartTag
      ensures Now() == Opened(old(Now()), e)
      ensures Gathered(attributes) == map[] ==> Tried()
      ensures old(Clean()) ==> Clean()
      ensures Gathered(attributes) == map[] ==> Said() == old(Said()) + [Open(UriOf(e.ns), e.kind, {})]
      ensures old(Scoped()) && (forall a :: a in attributes ==> !a.provided) ==> Scoped()
    {
      hide Pairs, Actions, Gathered, WrittenWell, AllBindings, Valid, ShapeOk;
      hide ValuesOk, ScopedAs, PlainBindings, PlainNamespaces, Caches;
      NothingGathered();
      AllBindingsPushFrame(frames, e);
      PushFrame(e);
      r := Success;
    }

    method PushFrame(e: Element)
      requires Valid() && e in elements && (sequence == BeforeRoot || sequence == InContent)
      modifies this`stack, this`frames, this`nowStarting, this`sequence
      ensures Valid() && frames == old(frames) + [Frame(e, [])] && nowStarting == e && sequence == InStartTag
    {
      hide DefaultsOk, RegistryOk, FramesOk, Flatten, AllBindings, NamespaceOk;
      FlattenPushFrame(frames, e);
      AllBindingsPushFrame(frames, e);
      FramesOkPushFrame(frames, e, Records());
      sequence := InStartTag;
      stack := stack + [AnElement(e)];
      stack := stack + [Null];
      frames := frames + [Frame(e, [])];
      nowStarting := e;
    }

    /** Undo the innermost declaration of `ns`, which has just been taken off the stack. */
    method Unbind(ns: Namespace, ghost decl: Attribute)
      requires stack == Flatten(frames) && FramesOk(frames, Records())
      requires NamespaceOk(ns, AllBindings(frames) + [Binding(ns, decl)], Records())
      modifies ns`declaration, ns`declCount, ns`baroque
      ensures NamespaceOk(ns, AllBindings(frames), Records())
      ensures ns.baroque ==> old(ns.baroque)
      ensures CachedOf(ns) == Unbound(old(CachedOf(ns)), ns, AllBindings(frames))
    {
      hide RegistryOk, FramesOk, Flatten, AllBindings, IsDecl, IsXml, Count, ElementStack.Innermost;
      ghost var bs := AllBindings(frames);
      InnermostIsDecl(frames, ns, Records());
      CachesOkPop(ns, ns.declaration, ns.declCount, ns.baroque, decl, bs, Records());
      if ns.baroque {
        var found := FindDeclaration(stack, ns, frames);
        if found.Some? {
          ns.declaration := found.value;
        }
      }
      ns.declCount := ns.declCount - 1;
      if ns.declCount == 0 {
        ns.baroque := false;
      }
      DeclCountIs(ns, bs, Records());
    }

    /** What holds while declarations are taken off the stack. */
    ghost predicate StackOk()
      reads this`namespaces, this`elements, this`attributes, this`prefixes, this`stack, this`frames, namespaces
    {
      && RegistryOk(Records())
      && FramesOk(frames, Records())
      && stack == Flatten(frames)
      && forall ns :: ns in namespaces ==> NamespaceOk(ns, AllBindings(frames), Records())
    }

    /** Take the innermost declaration off the stack. */
    method PopBinding()
      requires StackOk() && frames != [] && Top(frames).bindings != []
      modifies this`stack, this`frames, namespaces`declaration, namespaces`declCount, namespaces`baroque
      ensures StackOk() && frames == DropBinding(old(frames))
      ensures Now() == Dropped(old(Now()))
      ensures forall ns :: ns in namespaces && ns.baroque ==> old(ns.baroque)
    {
      hide RegistryOk, FramesOk, Flatten, AllBindings, NamespaceOk, DropBinding, IsXml, BindingOk, Caches, Unbound;
      hide CachedOf;
      ghost var t, b := Records(), Top(frames).bindings[|Top(frames).bindings| - 1];
      TopPair(frames, t);
      var entry := stack[|stack| - 2];
      stack := stack[..|stack| - 2];
      frames := DropBinding(frames);
      BindingOfTop(b, t);
      forall n | n in namespaces && n != b.ns
        ensures NamespaceOk(n, AllBindings(frames), t)
      {
        NamespaceOkPopOther(n, b, AllBindings(frames), t);
      }
      if entry != Null {
        CachesMember(namespaces, entry.ns);
        UnbindKnown(entry.ns, b.decl);
      } else {
        assert b.ns == null;
      }
    }

    method UnbindKnown(ns: Namespace, ghost decl: Attribute)
      requires stack == Flatten(frames) && FramesOk(frames, Records()) && ns in namespaces
      requires NamespaceOk(ns, AllBindings(frames) + [Binding(ns, decl)], Records())
      modifies ns`declaration, ns`declCount, ns`baroque
      ensures NamespaceOk(ns, AllBindings(frames), Records())
      ensures ns.baroque ==> old(ns.baroque)
      ensures Caches(namespaces) == old(Caches(namespaces))[ns := Unbound(old(CachedOf(ns)), ns, AllBindings(frames))]
    {
      hide FramesOk, Flatten, AllBindings, NamespaceOk, Unbound;
      Unbind(ns, decl);
    }

    /** Take all declarations of the top element off the stack. */
    method PopBindings()
      requires StackOk() && frames != []
      modifies this`stack, this`frames, namespaces`declaration, namespaces`declCount, namespaces`baroque
      ensures StackOk() && Extends(old(frames), frames) && Top(frames).bindings == []
      ensures Now() == Bared(old(Now()))
      ensures forall ns :: ns in namespaces && ns.baroque ==> old(ns.baroque)
    {
      hide StackOk, Caches, Dropped;
      TopShows();
      while stack[|stack| - 1] != Null
        invariant StackOk() && Extends(old(frames), frames) && |stack| > 1
        invariant Bared(Now()) == Bared(old(Now()))
        invariant stack[|stack| - 1] == Null <==> Top(frames).bindings == []
        invariant forall ns :: ns in namespaces && ns.baroque ==> old(ns.baroque)
        decreases |Top(frames).bindings|
      {
        PopBinding();
        TopShows();
      }
    }

    lemma TopShows()
      requires StackOk() && frames != []
      ensures |stack| > 1 && (stack[|stack| - 1] == Null <==> Top(frames).bindings == [])
    {
      TopOfStack(frames);
    }

    /** The end tag of the top element. */
    method SendEndTag(e: Element) returns (ghost tag: Event)
      requires Valid() && sequence == InContent && e == Top(frames).element
      modifies this`events, sender
      ensures tag.EndTag? && events == old(events) + [tag] && sender.sent == old(sender.sent) + Render(tag)
      ensures tag.kind == e.kind
      ensures tag.prefix == ElementPrefix(e, AllBindings(frames)) <==> !XmlIsStale(Now())
    {
      hide RegistryOk, FramesOk, Flatten, AllBindings, NamespaceOk, IsXml, Count, ElementPrefix, PrefixName;
      hide Qualified, Caches, XmlIsStale;
      ElementIsKnown(frames, Records());
      var decl: Attribute? := null;
      if e.ns != null {
        CoveredTop(frames);
        CachesMember(namespaces, e.ns);
        DeclarationIsSet(e.ns, AllBindings(frames), Records());
        if e.ns.declaration != xmlnsEquals {
          decl := e.ns.declaration;
        }
      }
      NamePrefixIs(Now(), Records());
      tag := EndTag(if decl == null then None else Some(PrefixName(decl)), e.kind);
      ghost var start := sender.sent;
      assert start + [] == start;
      ghost var all := Send([0x3c, 0x2f], start, []);
      all := SendName(decl, e.kind, start, all);
      all := Send([0x3e], start, all);
      events := events + [tag];
    }

    /** As long as the xml namespace has not been declared again, its cached declaration is the pre-wired one. */
    lemma XmlIsFresh()
      requires Valid() && XmlKept()
      ensures !XmlIsStale(Now())
    {
      hide RegistryOk, Flatten, AllBindings, DefaultsOk, SequenceOk, IsXml, Count;
      if frames != [] {
        ElementIsKnown(frames, Records());
        var ns := Top(frames).element.ns;
        if ns != null {
          assert NamespaceOk(ns, AllBindings(frames), Records());
        }
      }
    }

    /** Take the top element, without declarations by now, off the stack. */
    method PopFrame()
      requires StackOk() && DefaultsOk() && sender != null && frames != [] && Top(frames).bindings == []
      requires Covered(Below(frames))
      modifies this`stack, this`frames, this`sequence
      ensures Valid() && frames == Below(old(frames)) && Caches(namespaces) == old(Caches(namespaces))
      ensures sequence == if frames == [] then AfterRoot else InContent
    {
      hide RegistryOk, FramesOk, Flatten, AllBindings, NamespaceOk, IsXml, Covered, DefaultsOk, Caches;
      TopOfStack(frames);
      FramesOkDrop(frames, Records());
      stack := stack[..|stack| - 2];
      frames := Below(frames);
      FlattenEmpty(frames);
      sequence := if |stack| == 0 then AfterRoot else InContent;
    }

    /** Take the top element, with what was declared on it, off the stack. */
    method PopElement()
      requires Valid() && sequence == InContent
      modifies this`stack, this`frames, this`sequence, namespaces`declaration, namespaces`declCount, namespaces`baroque
      ensures Valid() && frames == Below(old(frames))
      ensures sequence == if frames == [] then AfterRoot else InContent
      ensures Now() == Closed(old(Now()))
      ensures old(XmlKept()) ==> XmlKept()
      ensures old(Plain()) ==> Plain()
    {
      hide AllBindings, NamespaceOk, IsXml, Covered, PlainBindings, DefaultsOk, Caches, Bared, StackOk, Valid;
      CanBePopped();
      PlainBindingsBelow(frames, namespaces);
      PopBindings();
      PopFrame();
    }

    lemma CanBePopped()
      requires Valid() && sequence == InContent
      ensures StackOk() && DefaultsOk() && sender != null && frames != [] && Covered(Below(frames))
    {
      CoveredTop(frames);
    }

    /** Write the end tag of the innermost open element. */
    method WriteEndTag()
      requires Valid() && sequence == InContent
      modifies this`events, sender
      ensures Valid()
      ensures old(Clean()) ==> (WrittenWell(Below(frames), true) <==> !XmlIsStale(Now()))
      ensures old(Clean()) && XmlIsStale(Now()) ==> Check(events).None?
      ensures old(Scoped()) ==> ScopedAs(events, Below(frames))
      ensures Said() == old(Said()) + [Close]
    {
      hide Actions;
      hide RegistryOk, FramesOk, Flatten, AllBindings, DefaultsOk, NamespaceOk, Covered, IsAttributeValue, ScopedAs;
      hide Plain;
      hide Check, Matches, RenderAll, Render, ElementPrefix, IsXml, Caches, XmlIsStale;
      var e := PeekElement(stack, frames);
      ghost var events0, wasClean := events, Clean();
      ghost var tag := SendEndTag(e);
      ActionsPush(events0, tag);
      RenderPush(events0, tag);
      Concat(base, RenderAll(events0), Render(tag));
      if wasClean {
        if XmlIsStale(Now()) {
          CheckOtherEndTag(events0, frames, tag);
        } else {
          CheckEndTag(events0, frames, tag);
        }
      }
      if old(Scoped()) {
        ScopedEndTag(events0, frames, tag);
      }
    }

    /** Write the end tag of the innermost open element and close it. */
    method EndAndPop()
      requires Valid() && sequence == InContent
      modifies this`stack, this`frames, this`events, this`sequence, sender
      modifies namespaces`declaration, namespaces`declCount, namespaces`baroque
      ensures Valid() && frames == Below(old(frames))
      ensures sequence == if frames == [] then AfterRoot else InContent
      ensures Now() == Closed(old(Now()))
      ensures old(Clean()) ==> (Clean() <==> !XmlIsStale(old(Now())))
      ensures old(Clean()) && XmlIsStale(old(Now())) ==> Check(events).None?
      ensures old(Scoped()) ==> Scoped()
      ensures old(XmlKept()) ==> XmlKept()
      ensures Said() == old(Said()) + [Close]
    {
      hide Actions, Gathered;
      hide Valid, ShapeOk, ValuesOk, Below, Check, Matches, RenderAll, XmlKept, Plain, ScopedAs, InStep, Now, Closed;
      hide XmlIsStale;
      WriteEndTag();
      PopElement();
    }

    /** End the innermost open element. */
    method EndElement() returns (r: Status)
      requires Valid()
      modifies this`status, this`stack, this`frames, this`events, this`sequence
      modifies (if sender == null then {} else {sender}), attributes
      modifies namespaces`declaration, namespaces`declCount, namespaces`baroque
      ensures Valid()
      ensures old(frames) == [] ==> r == SequenceError && frames == [] && sequence == old(sequence)
      ensures r.Success? ==>
                && old(frames) != [] && frames == Below(old(frames))
                && sequence == (if frames == [] then AfterRoot else InContent)
                && Now() == Closed(Left(old(Now()), old(Starting()), xmlnsEquals))
      ensures r == if old(Starting()) then old(Outlook()) else if old(sequence) == InContent then Success else SequenceError
      ensures old(Tried()) ==> Tried()
      ensures old(Scoped()) ==> !GoesWrong(r)
      ensures r.Success? && old(Clean()) ==>
                var stale := XmlIsStale(Left(old(Now()), old(Starting()), xmlnsEquals));
                if stale then Check(events).None? && !Clean() else Clean()
      ensures r.Success? && old(Clean() && XmlKept()) ==> Clean()
      ensures r.Success? && old(Scoped()) ==> Scoped()
      ensures old(XmlKept()) ==> XmlKept()
      ensures r.Success? ==> Said() == old(Said()) + [Close]
    {
      hide Said, Caches, Outlook, Closed, Settled, AllTried, XmlIsStale;
      hide RegistryOk, FramesOk, Flatten, AllBindings, DefaultsOk, NamespaceOk, Covered, Below, Clean, Scoped, XmlKept;
      r := LeaveStartTag(false);
      if r.Success? {
        if old(XmlKept()) {
          XmlIsFresh();
        }
        EndAndPop();
      }
    }

    /** Record something that was sent and leaves the open elements as they are. */
    ghost method Record(e: Event, printed: seq<Frame>, done: bool)
      requires sender != null
      modifies this`events
      ensures events == old(events) + [e]
      ensures Actions(events) == Actions(old(events)) + ActionOf(e)
      ensures old(WrittenWellBefore(printed, done, e)) && KeepsOpen(Check(old(events)), e) ==> WrittenWell(printed, done)
      ensures !e.StartTag? && !e.EndTag? && ScopedAs(old(events), printed) ==> ScopedAs(events, printed)
    {
      hide Actions, ActionOf;
      ActionsPush(events, e);
      hide Check, Matches, RenderAll, Render, IsAttributeValue, Next, ScopedAs;
      if !e.StartTag? && !e.EndTag? && ScopedAs(events, printed) {
        ScopedOther(events, printed, e);
      }
      RenderPush(events, e);
      CheckPush(events, e);
      Concat(base, RenderAll(events), Render(e));
      events := events + [e];
    }

    /** As WrittenWell, but the rendering of `e` has been sent already. */
    ghost predicate WrittenWellBefore(printed: seq<Frame>, rootDone: bool, e: Event)
      reads this`sender, this`events, this`base, this`attributes, sender, attributes
    {
      && sender != null
      && sender.sent == base + RenderAll(events) + Render(e)
      && ValuesOk()
      && Check(events).Some?
      && Matches(Check(events).value.open, printed)
      && (Check(events).value.rootSeen <==> rootDone || printed != [])
    }

    /** Text and single characters: where in the document are we? */
    method EnterContent() returns (r: Status)
      requires Valid()
      modifies this`status, this`stack, this`frames, this`events, this`sequence
      modifies (if sender == null then {} else {sender}), attributes
      modifies namespaces`declaration, namespaces`declCount, namespaces`baroque
      ensures Valid()
      ensures r.Success? ==> sequence == InContent
      ensures old(frames) == [] ==> r == SequenceError && frames == [] && sequence == old(sequence)
      ensures old(frames) != [] ==> Extends(old(frames), frames)
      ensures Now() == Left(old(Now()), old(Starting()), xmlnsEquals)
      ensures r == if old(Starting()) then old(Outlook()) else if old(sequence) == InContent then Success else SequenceError
      ensures old(Tried()) ==> Tried()
      ensures old(Scoped()) ==> !GoesWrong(r)
      ensures r.Success? && old(Clean()) ==> Clean()
      ensures r.Success? && old(Scoped()) ==> Scoped()
      ensures old(XmlKept()) ==> XmlKept()
      ensures r.Success? ==> Said() == old(Said())
    {
      hide Said, Caches, Outlook, Settled, AllTried;
      hide RegistryOk, FramesOk, Flatten, AllBindings, DefaultsDiffer, NamespaceOk, IsAttributeValue, Covered;
      hide Check, Matches, RenderAll, ScopedAs, Plain, InStep, XmlKept;
      if sequence.InStartTag? || sequence.InAttributes? {
        r := CloseStartTag();
        if !r.Success? {
          return r;
        }
      }
      if sequence != InContent {
        status := SequenceError;
        return status;
      }
      r := Success;
    }

    /** Record text that was sent. */
    ghost method RecordChars(octets: bytes)
      requires Valid() && sequence == InContent
      modifies this`events
      ensures Valid() && events == old(events) + [Chars(Escaped(InText, octets))]
      ensures old(WrittenWellBefore(frames, false, Chars(Escaped(InText, octets)))) ==> Clean()
      ensures old(Scoped()) ==> Scoped()
      ensures Said() == old(Said()) + [Text(Escaped(InText, octets))]
    {
      hide Actions, Gathered;
      hide RegistryOk, FramesOk, Flatten, AllBindings, DefaultsOk, NamespaceOk, Covered, IsAttributeValue, Escaped;
      hide Check, Matches, RenderAll, Render, ScopedAs, Plain, InStep;
      CharsKeepOpen(events, octets, frames);
      Record(Chars(Escaped(InText, octets)), frames, false);
    }

    /** Send text and record it. */
    method WriteText(text: CString) returns (r: Status)
      requires Valid() && sequence == InContent
      modifies this`events, sender
      ensures Valid() && r == TextStatus(text)
      ensures r.Success? ==> events == old(events) + [Chars(Escaped(InText, text))]
      ensures r.Success? && old(Clean()) ==> Clean()
      ensures r.Success? && old(Scoped()) ==> Scoped()
      ensures r.Success? ==> Said() == old(Said()) + [Text(Escaped(InText, text))]
    {
      hide Said;
      hide RegistryOk, FramesOk, Flatten, AllBindings, DefaultsOk, NamespaceOk, Covered, IsAttributeValue, Escaped;
      hide TextStatus;
      hide Check, Matches, RenderAll, ScopedAs, Plain, InStep;
      r := SendText(sender, text);
      if r.Success? {
        label sent:
        assert old(Clean()) ==> WrittenWellBefore(frames, false, Chars(Escaped(InText, text)));
        RecordChars(text);
        assert old@sent(WrittenWellBefore(frames, false, Chars(Escaped(InText, text)))) ==> Clean();
      }
    }

    /** Add text to the innermost open element. */
    method AddText(text: CString) returns (r: Status)
      requires Valid()
      modifies this`status, this`stack, this`frames, this`events, this`sequence
      modifies (if sender == null then {} else {sender}), attributes
      modifies namespaces`declaration, namespaces`declCount, namespaces`baroque
      ensures Valid()
      ensures old(frames) == [] ==> r == SequenceError && frames == []
      ensures old(frames) != [] ==> Extends(old(frames), frames)
      ensures r.Success? ==> sequence == InContent && IsText(text)
      ensures r.Success? ==> |events| > 0 && events[|events| - 1] == Chars(Escaped(InText, text))
      ensures Now() == Left(old(Now()), old(Starting()), xmlnsEquals)
      ensures GoesWrong(r) ==> old(Starting()) && r == old(Outlook())
      ensures old(Tried()) ==> Tried()
      ensures old(Scoped()) ==> !GoesWrong(r)
      ensures r.Success? && old(Clean()) ==> Clean()
      ensures r.Success? && old(Scoped()) ==> Scoped()
      ensures r.Success? ==> Said() == old(Said()) + [Text(Escaped(InText, text))]
      ensures old(XmlKept()) ==> XmlKept()
    {
      hide Actions, Gathered;
      hide RegistryOk, FramesOk, Flatten, AllBindings, DefaultsOk, NamespaceOk, Covered, Extends, TextStatus, Escaped;
      hide Clean, Scoped, XmlKept, Now, Left, Outlook, Tried, Valid, Said;
      r := EnterContent();
      if r.Success? {
        r := WriteText(text);
        status := r;
      }
    }

    /** Send a character and record it. */
    method WriteCharacter(c: int)
      requires Valid() && sequence == InContent && IsXmlChar(c)
      modifies this`status, this`events, sender
      ensures Valid() && events == old(events) + [Chars(Escaped(InText, Encode(c)))]
      ensures old(Clean()) ==> Clean()
      ensures old(Scoped()) ==> Scoped()
      ensures Said() == old(Said()) + [Text(Escaped(InText, Encode(c)))]
    {
      hide Actions, Gathered;
      hide RegistryOk, FramesOk, Flatten, AllBindings, DefaultsOk, NamespaceOk, Covered, IsAttributeValue, Escaped;
      hide Encode;
      hide Check, Matches, RenderAll, ScopedAs, Plain, InStep;
      SendCharacter(c);
      RecordChars(Encode(c));
    }

    /** Add one character to the innermost open element. */
    method AddCharacter(c: int) returns (r: Status)
      requires Valid()
      modifies this`status, this`stack, this`frames, this`events, this`sequence
      modifies (if sender == null then {} else {sender}), attributes
      modifies namespaces`declaration, namespaces`declCount, namespaces`baroque
      ensures Valid()
      ensures old(frames) == [] ==> r == SequenceError && frames == []
      ensures old(frames) != [] ==> Extends(old(frames), frames)
      ensures r.Success? ==> sequence == InContent && IsXmlChar(c)
      ensures r.Success? ==> |events| > 0 && events[|events| - 1] == Chars(Escaped(InText, Encode(c)))
      ensures Now() == Left(old(Now()), old(Starting()), xmlnsEquals)
      ensures GoesWrong(r) ==> old(Starting()) && r == old(Outlook())
      ensures old(Tried()) ==> Tried()
      ensures old(Scoped()) ==> !GoesWrong(r)
      ensures r.Success? && old(Clean()) ==> Clean()
      ensures r.Success? && old(Scoped()) ==> Scoped()
      ensures r.Success? ==> Said() == old(Said()) + [Text(Escaped(InText, Encode(c)))]
      ensures old(XmlKept()) ==> XmlKept()
    {
      hide Actions, Gathered;
      hide RegistryOk, FramesOk, Flatten, AllBindings, DefaultsOk, NamespaceOk, Covered, Extends, Escaped, Encode;
      hide Clean, Scoped, XmlKept, Now, Left, Outlook, Tried, Valid, Said;
      r := EnterContent();
      if r.Success? {
        if IsXmlChar(c) {
          WriteCharacter(c);
        } else {
          status := NonXmlCharacter;
          r := status;
        }
      }
    }

    /** The UTF-8 form of a character, escaped where needed. */
    method SendCharacter(c: int)
      requires sender != null && IsXmlChar(c)
      modifies this`status, sender
      ensures sender.sent == old(sender.sent) + Escaped(InText, Encode(c))
    {
      ScalarOfEncode(c);
      hide Escaped, IsUtf8Char, Scalar, IsXmlChar, Encode;
      var octets := CharToUtf8(c);
      var last, breaker;
      assert octets[0..|octets|] == octets;
      Concat(sender.sent, [], []);
      ghost var before := Pending(sender, octets, 0, 0);
      assert before == sender.sent;
      status, last, breaker := AddChar(sender, c, octets, |octets|, 0, 0);
      sender.SendBounded(octets, breaker, |octets|);
    }

    /** Write a comment; outside the root element it gets a line of its own. */
    method AddComment(text: CString) returns (r: Status)
      requires Valid()
      modifies this`status, this`stack, this`frames, this`events, this`sequence
      modifies (if sender == null then {} else {sender}), attributes
      modifies namespaces`declaration, namespaces`declCount, namespaces`baroque
      ensures Valid()
      ensures old(sequence) == NoDocument ==> r == SequenceError
      ensures !IsCommentText(text) ==> !r.Success?
      ensures if old(frames) == [] then frames == [] && sequence == old(sequence) else Extends(old(frames), frames)
      ensures r.Success? && old(frames) != [] ==> sequence == InContent
      ensures GoesWrong(r) ==> old(Starting()) && r == old(Outlook())
      ensures old(Tried()) ==> Tried()
      ensures old(Scoped()) ==> !GoesWrong(r)
      ensures r.Success? && old(Clean()) ==> Clean()
      ensures r.Success? && old(Scoped()) ==> Scoped()
      ensures r.Success? ==> Said() == old(Said()) + [Remark(text)]
      ensures old(XmlKept()) ==> XmlKept()
    {
      hide Valid, Said, Clean, Scoped, XmlKept, IsCommentText, Now, Outlook, Tried;
      if sequence == NoDocument {
        status := SequenceError;
        return status;
      }
      status := CheckComment(text);
      if !status.Success? {
        return status;
      }
      r := BeforeComment();
      if !r.Success? {
        return r;
      }
      SendComment(text);
      if sequence == BeforeRoot {
        SendOutside(LineBreak);
      }
      r := Success;
    }

    /** What has to be written before a comment: the start tag, or a line break behind the root element. */
    method BeforeComment() returns (r: Status)
      requires Valid() && sequence != NoDocument
      modifies this`status, this`stack, this`frames, this`events, this`sequence
      modifies (if sender == null then {} else {sender}), attributes
      modifies namespaces`declaration, namespaces`declCount, namespaces`baroque
      ensures Valid() && sender != null
      ensures if old(frames) == [] then frames == [] && sequence == old(sequence) else Extends(old(frames), frames)
      ensures r.Success? && old(frames) != [] ==> sequence == InContent
      ensures r.Success? ==> !sequence.InStartTag? && !sequence.InAttributes?
      ensures r == if old(Starting()) then old(Outlook()) else Success
      ensures old(Tried()) ==> Tried()
      ensures old(Scoped()) ==> !GoesWrong(r)
      ensures r.Success? && old(Clean()) ==> Clean()
      ensures r.Success? && old(Scoped()) ==> Scoped()
      ensures r.Success? ==> Said() == old(Said())
      ensures old(XmlKept()) ==> XmlKept()
    {
      hide RegistryOk, FramesOk, Flatten, NamespaceOk, DefaultsOk, Covered, Said, Clean, Scoped, XmlKept, Now;
      hide Outlook, AllTried;
      r := Success;
      if sequence.InStartTag? || sequence.InAttributes? {
        r := CloseStartTag();
      } else if sequence == AfterRoot {
        SendOutside(LineBreak);
      }
    }

    /** The line breaks around comments outside the root element. */
    method SendOutside(e: Event)
      requires Valid() && sender != null && frames == [] && e == LineBreak
      modifies this`events, sender
      ensures Valid()
      ensures old(Clean()) ==> Clean()
      ensures old(Scoped()) ==> Scoped()
      ensures Said() == old(Said())
    {
      hide Actions, Gathered;
      hide RegistryOk, FramesOk, Flatten, AllBindings, DefaultsOk, NamespaceOk, IsAttributeValue;
      hide Check, RenderAll, ScopedAs, Plain, InStep;
      sender.Send([0x0a]);
      Record(e, frames, sequence.AfterRoot?);
    }

    method SendComment(text: CString)
      requires Valid() && sender != null && IsCommentText(text) && !sequence.InStartTag? && !sequence.InAttributes?
      modifies this`events, sender
      ensures Valid()
      ensures old(Clean()) ==> Clean()
      ensures old(Scoped()) ==> Scoped()
      ensures Said() == old(Said()) + [Remark(text)]
    {
      hide Valid, ShapeOk, IsCommentText, Actions, Gathered, ValuesOk, Check, Render, RenderAll, Matches, ScopedAs;
      hide Plain, InStep;
      SendParts(text);
      Record(Comment(text), frames, sequence.AfterRoot?);
    }

    method SendParts(text: CString)
      requires sender != null
      modifies sender
      ensures sender.sent == old(sender.sent) + Render(Comment(text))
    {
      ghost var start := sender.sent;
      assert start + [] == start && [] + COMMENT_OPEN == COMMENT_OPEN;
      ghost var all := Send(COMMENT_OPEN, start, []);
      all := Send(text, start, all);
      all := Send(COMMENT_CLOSE, start, all);
    }

    /** End the document. */
    method EndDocument() returns (r: Status)
      requires Valid()
      modifies this`status, this`sequence
      ensures Valid()
      ensures r.Success? <==> old(sequence) == AfterRoot
      ensures if r.Success? then sequence == NoDocument else r == SequenceError && sequence == old(sequence)
      ensures old(Tried()) ==> Tried()
      ensures r.Success? && old(Clean()) ==> Clean()
      ensures r.Success? && old(Clean()) ==> sender != null && IsDocument(events) && sender.sent == base + RenderAll(events)
      ensures r.Success? && old(Scoped()) ==> Scoped() && Scopes(events) == Some([])
      ensures Said() == old(Said()) && (r.Success? ==> Actions(events) == Said())
    {
      hide ValuesOk, Now, Gathered;
      hide RegistryOk, FramesOk, Flatten, AllBindings, DefaultsOk, NamespaceOk, IsAttributeValue, RenderAll, Check;
      if sequence != AfterRoot {
        status := SequenceError;
        return status;
      }
      sequence := NoDocument;
      r := Success;
    }

    // ---------- Calls that declare ----------

    /** The tests of genxDeclareNamespace. */
    method CheckNamespace(uri: CString, prefix: Option<CString>) returns (r: Status)
      ensures r.Success? <==> uri != [] && IsText(uri) && (prefix.Some? && prefix.value != [] ==> IsName(prefix.value, props))
    {
      hide TextStatus, IsName;
      if uri == [] {
        return BadNamespaceName;
      }
      r := CheckText(uri);
      if !r.Success? {
        return;
      }
      if prefix.Some? && prefix.value != [] {
        r := CheckName(prefix.value, props);
      }
    }

    /** Declare a namespace, or look it up. */
    method DeclareNamespace(uri: CString, prefix: Option<CString>, before: Status)
      returns (ns: Namespace?, after: Status)
      requires Valid()
      modifies this`namespaces, this`prefixes, this`attributes, this`status, this`defaultNsDeclared, this`nextPrefix
      modifies namespaces
      ensures after.Success? || (after != DuplicatePrefix && after != before) ==> Valid()
      ensures forall n :: n in namespaces ==> n in old(namespaces) || fresh(n)
      ensures Grows(old(Records()), Records()) && TagKept() && Said() == old(Said())
      ensures after.Success? <==> ns != null
      ensures after.Success? ==>
                && ns in namespaces && ns.name == uri
                && namespaces == (if ns in old(namespaces) then old(namespaces) else old(namespaces) + [ns])
                && nextPrefix == old(nextPrefix) + (if prefix.None? && ns !in old(namespaces) then 1 else 0)
                && Caches(namespaces) == old(Caches(namespaces))[ns := CachedOf(ns)]
                && NamespaceDeclared(old(Caches(namespaces)), ns, CachedOf(ns), prefix, old(nextPrefix), xmlnsEquals)
      ensures uri != [] && IsText(uri) && before.Success?
              && prefix.Some? && (prefix.value != [] ==> IsName(prefix.value, props)) && old(IsFree(prefix.value)) ==>
                after.Success?
      ensures after.Success? && old(Tried()) ==> Tried()
      ensures prefix.Some? && prefix.value != [] ==> defaultNsDeclared == old(defaultNsDeclared)
      ensures after.Success? && prefix == Some([]) ==> ns.defaultDecl == xmlnsEquals
    {
      hide RegistryOk, FramesOk, Flatten, SequenceOk, NamespaceOk, TextStatus, IsName, AllBindings, DefaultsOk, Actions;
      hide IsFree, AllTried, Later;
      hide Gathered, ValuesOk, InStep, Caches, NamespaceDeclared, Valid, CachedOf;
      var ok := CheckNamespace(uri, prefix);
      if !ok.Success? {
        status := ok;
        return null, ok;
      }
      ghost var was, serial := Now(), nextPrefix;
      ns, after := RegisterNamespace(uri, prefix, before);
      if after.Success? && old(Tried()) && frames != [] {
        DeclaredIsLater(was, ns, CachedOf(ns), prefix, serial, xmlnsEquals);
        if Starting() {
          TriedStays(was);
        }
      }
    }

    // ---------- Calls for the start tag ----------

    /** Add an attribute to the current element. */
    method AddAttributeCall(a: Attribute, value: Option<CString>) returns (r: Status)
      requires Valid() && a in attributes
      modifies this`status, this`stack, this`frames, this`sequence, attributes
      modifies (if a.ns == null then {} else {a.ns})`declaration, (if a.ns == null then {} else {a.ns})`declCount
      ensures Valid()
      ensures !old(Starting()) ==> r == SequenceError && sequence == old(sequence) && frames == old(frames)
      ensures old(Starting()) ==> sequence == InAttributes
      ensures old(frames) != [] ==> Extends(old(frames), frames)
      ensures r.Success? ==> value.Some?
      ensures old(Starting()) ==>
                r == if !ValueStatus(value).Success? then ValueStatus(value)
                     else if old(a.provided) then DuplicateAttribute
                     else Success
      ensures Now() == if old(Starting()) && a.ns != null && ValueStatus(value).Success?
                       then AttemptedByDefault(old(Now()), a.ns, xmlnsEquals) else old(Now())
      ensures r.Success? ==> a.provided && a.value == Escaped(InValue, value.value)
      ensures r.Success? && !IsDeclaration(a) ==>
                Gathered(attributes) == old(Gathered(attributes))[a := Escaped(InValue, value.value)]
      ensures old(Tried()) ==> Tried()
      ensures r.Success? && old(Clean()) ==> Clean()
      ensures r.Success? && old(Scoped()) && !IsDeclaration(a) ==> Scoped()
      ensures r.Success? ==>
                if IsDeclaration(a) then Said() == old(Said())
                else Said() == Furnished(old(Said()), (KeyOf(WantedOf(a)), Escaped(InValue, value.value)))
    {
      hide TextStatus, Escaped, IsDeclaration, Gathered, KeyOf, WantedOf, Furnished, Now, AttemptedByDefault, Tried;
      hide Valid;
      hide Clean, Scoped, Said;
      if sequence != InStartTag && sequence != InAttributes {
        status := SequenceError;
        return status;
      }
      BeInAttributes();
      if value.None? {
        status := MissingValue;
        return status;
      }
      r := Gather(a, value.value);
    }

    /** Attributes have been added, so declarations are over. */
    method BeInAttributes()
      requires Valid() && Starting()
      modifies this`sequence
      ensures Valid() && sequence == InAttributes && frames != [] && Said() == old(Said())
      ensures old(Tried()) ==> Tried()
      ensures old(Clean()) ==> Clean()
      ensures old(Scoped()) ==> Scoped()
    {
      hide RegistryOk, FramesOk, Flatten, AllBindings, NamespaceOk, DefaultsOk, Covered, ValuesOk, WrittenWell, Plain;
      hide InStep, ScopedAs;
      hide AllTried, Asked, Gathered, Now;
      sequence := InAttributes;
    }

    /** As addAttribute, with what it means for the start tag. */
    method Gather(a: Attribute, value: CString) returns (r: Status)
      requires Valid() && Starting() && frames != [] && a in attributes
      modifies this`status, this`stack, this`frames, attributes
      modifies (if a.ns == null then {} else {a.ns})`declaration, (if a.ns == null then {} else {a.ns})`declCount
      ensures Valid() && Extends(old(frames), frames)
      ensures r == if !IsText(value) then TextStatus(value) else if old(a.provided) then DuplicateAttribute else Success
      ensures Now() == if a.ns == null || !IsText(value) then old(Now()) else AttemptedByDefault(old(Now()), a.ns, xmlnsEquals)
      ensures r.Success? ==> a.provided && a.value == Escaped(InValue, value)
      ensures r.Success? && !IsDeclaration(a) ==> Gathered(attributes) == old(Gathered(attributes))[a := Escaped(InValue, value)]
      ensures old(Tried()) ==> Tried()
      ensures r.Success? && old(Clean()) ==> Clean()
      ensures r.Success? && old(Scoped()) && !IsDeclaration(a) ==> Scoped()
      ensures r.Success? ==>
                if IsDeclaration(a) then Said() == old(Said())
                else Said() == Furnished(old(Said()), (KeyOf(WantedOf(a)), Escaped(InValue, value)))
    {
      hide IsAttributeValue, TextStatus, Escaped, IsDeclaration, Actions, Gathered, Pairs, KeyOf, WantedOf, AllBindings;
      hide Check, Matches, RenderAll, Plain, InStep, ScopedAs, RegistryOk, FramesOk, Flatten, Covered, NamespaceOk;
      hide DefaultsOk;
      hide SequenceOk, ValuesOk, ShapeOk, Caches, AttemptedByDefault, AllTried;
      ghost var was, gathered := Now(), Gathered(attributes);
      CoveredByStart();
      TriedWith(a);
      r := AddAttribute(a, value);
      StillTriedWith(gathered, a, was, IsText(value), r);
      if r.Success? && !IsDeclaration(a) {
        GatheredOneMore(events, nowStarting, gathered, a, Escaped(InValue, value));
      }
    }

    /** The attempt to declare the namespace of `a` will make it one of those that have been tried. */
    lemma TriedWith(a: Attribute)
      requires Valid() && frames != [] && a in attributes
      ensures var g, s := Gathered(attributes).Keys, Now();
              AllTried(g, s, xmlnsEquals) ==>
                AllTried(g + {a}, if a.ns == null then s else AttemptedByDefault(s, a.ns, xmlnsEquals), xmlnsEquals)
    {
      hide RegistryOk, FramesOk, Flatten, SequenceOk, AllBindings, Count, IsXml, Caches, Gathered, Undeclared;
      hide MayBeEmpty, AttemptedByDefault;
      var g, s := Gathered(attributes).Keys, Now();
      if AllTried(g, s, xmlnsEquals) && a.ns != null {
        NamespaceOfAttribute(a, Records());
        CachesMember(namespaces, a.ns);
        assert NamespaceOk(a.ns, AllBindings(frames), Records());
        hide AllTried;
        TriedOneMore(g, a, s, xmlnsEquals);
      }
    }

    lemma StillTriedWith(gathered: map<Attribute, bytes>, a: Attribute, was: Scene, ok: bool, r: Status)
      requires frames != [] && was.frames != [] && a in attributes
      requires AllTried(gathered.Keys, was, xmlnsEquals) ==>
                 AllTried(gathered.Keys + {a}, if a.ns == null then was else AttemptedByDefault(was, a.ns, xmlnsEquals), xmlnsEquals)
      requires Now() == if a.ns == null || !ok then was else AttemptedByDefault(was, a.ns, xmlnsEquals)
      requires Gathered(attributes).Keys <= gathered.Keys + if ok then {a} else {}
      ensures AllTried(gathered.Keys, was, xmlnsEquals) ==> AllTried(Gathered(attributes).Keys, Now(), xmlnsEquals)
    {
      hide Now, AttemptedByDefault, Gathered, Undeclared, MayBeEmpty;
    }

    /** With its default prefix a namespace is declared by its default declaration. */
    lemma DefaultChosen(ns: Namespace, decl: Attribute, prefix: Option<bytes>)
      requires Valid() && ns in namespaces && IsDecl(decl, Records())
      requires UsesDefault(CachedOf(ns), prefix) && DeclaresBy(ns, decl, prefix)
      ensures decl == ns.defaultDecl
    {
      hide FramesOk, Flatten, SequenceOk, CachesOk, AllBindings, DefaultsOk, NamespacesOk, SortedStrings;
      assert NamespaceOk(ns, AllBindings(frames), Records());
      if prefix.Some? {
        var d := ns.defaultDecl;
        assert |XMLNS_COLON + prefix.value| > |XMLNS|;
        assert AttributeOk(d, namespaces) && AttributeOk(decl, namespaces);
        hide SortedKeys;
        SameName(attributes, d, decl);
      }
    }

    /** The xml namespace keeps its default prefix as long as it is not declared again. */
    lemma XmlDefault(ns: Namespace)
      requires Valid() && XmlKept() && ns in namespaces && IsXml(ns)
      ensures UsesDefault(CachedOf(ns), Some(XML_PREFIX))
    {
      hide RegistryOk, FramesOk, Flatten, SequenceOk, AllBindings, DefaultsOk, IsDecl;
      assert XMLNS_XML == XMLNS_COLON + XML_PREFIX;
      assert NamespaceOk(ns, AllBindings(frames), Records());
    }

    /** Declare a namespace on the current element. */
    method AddNamespaceCall(ns: Namespace, prefix: Option<CString>) returns (r: Status)
      requires Valid() && ns in namespaces
      modifies this`status, this`stack, this`frames, this`prefixes, this`attributes
      modifies ns`declaration, ns`declCount, ns`baroque, attributes
      ensures Valid() && Said() == old(Said())
      ensures forall x :: x in attributes ==> x in old(attributes) || fresh(x)
      ensures old(sequence) != InStartTag ==> r == SequenceError && frames == old(frames)
      ensures old(frames) != [] ==> Extends(old(frames), frames)
      ensures Gathered(attributes) == old(Gathered(attributes))
      ensures old(sequence) == InStartTag && prefix == Some([]) ==>
                && Now() == AttemptedBy(old(Now()), ns, xmlnsEquals, xmlnsEquals)
                && r == StatusAfter(
                     FateIn(FlaggedUnless(old(Now()), ns, xmlnsEquals), ns, xmlnsEquals, xmlnsEquals), old(xmlnsEquals.provided))
      ensures old(Tried()) ==> Tried()
      ensures old(Clean()) ==> Clean()
      ensures r.Success? && old(Scoped() && UsesDefault(CachedOf(ns), prefix)) ==> Scoped()
      ensures old(XmlKept() && (IsXml(ns) ==> UsesDefault(CachedOf(ns), prefix))) ==> XmlKept()
    {
      hide Valid, Tried, Clean, Scoped, Said, XmlKept, UsesDefault, CachedOf, IsXml, Now, AttemptedBy, FateIn;
      hide FlaggedUnless, Gathered;
      if sequence != InStartTag {
        status := SequenceError;
        return status;
      }
      CoveredByStart();
      r := DeclareOnElement(ns, prefix);
    }

    /** As addNamespace, with what it means for the start tag. */
    method DeclareOnElement(ns: Namespace, prefix: Option<CString>) returns (r: Status)
      requires Valid() && Starting() && frames != [] && ns in namespaces
      modifies this`status, this`stack, this`frames, this`prefixes, this`attributes
      modifies ns`declaration, ns`declCount, ns`baroque, attributes
      ensures Valid() && Said() == old(Said()) && Extends(old(frames), frames)
      ensures forall x :: x in attributes ==> x in old(attributes) || fresh(x)
      ensures Gathered(attributes) == old(Gathered(attributes))
      ensures prefix == Some([]) ==>
                && Now() == AttemptedBy(old(Now()), ns, xmlnsEquals, xmlnsEquals)
                && r == StatusAfter(
                     FateIn(FlaggedUnless(old(Now()), ns, xmlnsEquals), ns, xmlnsEquals, xmlnsEquals), old(xmlnsEquals.provided))
      ensures old(Tried()) ==> Tried()
      ensures old(Clean()) ==> Clean()
      ensures r.Success? && old(Scoped() && UsesDefault(CachedOf(ns), prefix)) ==> Scoped()
      ensures old(XmlKept() && (IsXml(ns) ==> UsesDefault(CachedOf(ns), prefix))) ==> XmlKept()
    {
      hide RegistryOk, FramesOk, Flatten, SequenceOk, NamespaceOk, DefaultsOk, AllBindings, Check, Matches, RenderAll;
      hide ScopedAs;
      hide Actions, Gathered, ValuesOk, InStep, Plain, IsXml, FateOf, FramesAfter, Covered, Escaped, DeclaresBy;
      hide UsesDefault;
      hide Valid, ShapeOk, Caches, AttemptedBy, AllTried, Later, Flatten, FateIn, FlaggedUnless;
      CachesMember(namespaces, ns);
      ghost var was := Now();
      ghost var decl, fate;
      r, decl, fate := AddNamespace(ns, prefix);
      if old(Tried()) && decl != null {
        AttemptedByIsLater(was, ns, decl, xmlnsEquals);
        TriedStays(was);
      }
    }

    /** Make sure that no default namespace is in effect on the current element. */
    method UnsetDefaultNamespace() returns (r: Status)
      requires Valid()
      modifies this`status, this`stack, this`frames, namespaces`baroque, attributes
      ensures Valid() && Said() == old(Said())
      ensures old(sequence) != InStartTag ==> r == SequenceError && frames == old(frames)
      ensures old(frames) != [] ==> Extends(old(frames), frames)
      ensures old(Tried()) ==> Tried()
      ensures old(Clean()) ==> Clean()
      ensures r.Success? && old(Scoped()) ==> Scoped()
      ensures old(XmlKept()) ==> XmlKept()
    {
      hide Valid, Tried, Clean, Scoped, Said, XmlKept;
      if sequence != InStartTag {
        status := SequenceError;
        return status;
      }
      CoveredByStart();
      r := UnsetOnElement();
    }

    /** As unsetDefaultNamespace, with what it means for the start tag. */
    method UnsetOnElement() returns (r: Status)
      requires Valid() && Starting() && frames != []
      modifies this`status, this`stack, this`frames, namespaces`baroque, attributes
      ensures Valid() && Said() == old(Said()) && Extends(old(frames), frames)
      ensures old(Tried()) ==> Tried()
      ensures old(Clean()) ==> Clean()
      ensures r.Success? && old(Scoped()) ==> Scoped()
      ensures old(XmlKept()) ==> XmlKept()
    {
      hide RegistryOk, FramesOk, Flatten, SequenceOk, NamespaceOk, DefaultsOk, AllBindings, Check, Matches, RenderAll;
      hide ScopedAs;
      hide Actions, Gathered, ValuesOk, InStep, Plain, Covered, LastBy, Caches, Undefaulted, AllTried, Later;
      hide Valid, ShapeOk, XmlKept;
      ghost var was := Now();
      UndefaultedIsLater(was, xmlnsEquals);
      ghost var found;
      r, found := UnsetDefault();
      if old(Tried()) {
        TriedStays(was);
      }
    }

    method FindElement(ns: Namespace?, kind: bytes) returns (e: Element?)
      requires RegistryOk(Records()) && (ns != null ==> ns in namespaces)
      ensures e == null ==> forall x :: x in elements ==> x.ns != ns || x.kind != kind
      ensures e != null ==> e in elements && e.ns == ns && e.kind == kind
    {
      hide RegistryOk, NamespacesOk;
      KnownNamespaces(Records());
      for i := 0 to |elements|
        invariant forall k :: 0 <= k < i ==> elements[k].ns != ns || elements[k].kind != kind
      {
        var x := elements[i];
        if ns == null {
          if x.ns == null && kind == x.kind {
            return x;
          }
        } else if x.ns != null && ns.name == x.ns.name && kind == x.kind {
          NamesDiffer(namespaces, ns, x.ns);
          return x;
        }
      }
      e := null;
    }

    /** A new record for an element. */
    method AppendElement(ns: Namespace?, kind: CString) returns (e: Element)
      requires Valid() && (ns != null ==> ns in namespaces)
      modifies this`elements
      ensures Valid() && elements == old(elements) + [e]
      ensures fresh(e) && e.ns == ns && e.kind == kind
      ensures old(Clean()) ==> Clean()
      ensures old(Scoped()) ==> Scoped()
    {
      hide RegistryOk, FramesOk, Flatten, SequenceOk, NamespaceOk, DefaultsOk, AllBindings, ScopedAs;
      hide ValuesOk, InStep, Plain, Grows, WrittenWell;
      e := new Element(ns, kind);
      ElementAdded(Records(), e);
      FramesOkGrows(frames, Records(), Records().(elements := elements + [e]));
      NamespacesOkGrow(namespaces, AllBindings(frames), Records(), Records().(elements := elements + [e]));
      elements := elements + [e];
    }

    /** Declare an element, or look it up. */
    method DeclareElement(ns: Namespace?, kind: CString, before: Status) returns (e: Element?, after: Status)
      requires Valid() && (ns != null ==> ns in namespaces)
      modifies this`elements, this`status
      ensures Valid() && Said() == old(Said())
      ensures e != null <==> IsName(kind, props)
      ensures e == null ==> elements == old(elements) && (after == BadName || after == BadUtf8)
      ensures e != null ==> e in elements && e.ns == ns && e.kind == kind
      ensures e != null && e in old(elements) ==> elements == old(elements) && after == before
      ensures e != null ==> forall x :: x in old(elements) && x.ns == ns && x.kind == kind ==> e in old(elements)
      ensures e != null && e !in old(elements) ==> elements == old(elements) + [e] && after == Success
      ensures old(Clean()) ==> Clean()
      ensures old(Scoped()) ==> Scoped()
    {
      hide RegistryOk, FramesOk, Flatten, SequenceOk, NamespaceOk, DefaultsOk, Clean, Scoped, Said, IsName;
      status := CheckName(kind, props);
      if !status.Success? {
        return null, status;
      }
      var known := FindElement(ns, kind);
      if known != null {
        return known, before;
      }
      e := AppendElement(ns, kind);
      after := Success;
    }

    /** Declare an attribute, or look it up. */
    method DeclareAttribute(ns: Namespace?, name: CString, before: Status) returns (a: Attribute?, after: Status)
      requires Valid() && (ns != null ==> ns in namespaces)
      modifies this`attributes, this`status
      ensures Valid() && Said() == old(Said())
      ensures forall x :: x in attributes ==> x in old(attributes) || fresh(x)
      ensures !IsName(name, props) ==> a == null && (after == BadName || after == BadUtf8)
      ensures IsName(name, props) && !(ns != null && ns.defaultDecl == xmlnsEquals) ==> a != null
      ensures old(Tried()) ==> Tried()
      ensures IsName(name, props) && ns != null && ns.defaultDecl == xmlnsEquals ==>
                a == null && after == AttributeInDefaultNamespace
      ensures a == null ==> attributes == old(attributes) && !after.Success?
      ensures a != null ==> a in attributes && WantedOf(a) == Wanted(TypeOf(ns, name), ns, name)
      ensures a != null && a in old(attributes) ==> attributes == old(attributes) && after == before
      ensures a != null && a !in old(attributes) ==> after == Success
      ensures old(Clean()) ==> Clean()
      ensures old(Scoped()) ==> Scoped()
    {
      hide AllBindings, Check, Matches, RenderAll, ScopedAs, Gathered, ValuesOk, InStep, Plain, IsName, Valid;
      hide ShapeOk, WantedOf;
      hide Said, Tried;
      status := CheckName(name, props);
      if !status.Success? {
        return null, status;
      }
      a, after := DeclareChecked(ns, name, before);
    }

    method DeclareChecked(ns: Namespace?, name: CString, before: Status) returns (a: Attribute?, after: Status)
      requires Valid() && (ns != null ==> ns in namespaces)
      modifies this`attributes, this`status
      ensures Valid() && TagKept() && Said() == old(Said())
      ensures old(Tried()) ==> Tried()
      ensures a == null <==> ns != null && ns.defaultDecl == xmlnsEquals
      ensures a == null ==> attributes == old(attributes) && after == AttributeInDefaultNamespace
      ensures a != null ==> a in attributes && WantedOf(a) == Wanted(TypeOf(ns, name), ns, name)
      ensures a != null && a in old(attributes) ==> attributes == old(attributes) && after == before
      ensures a != null && a !in old(attributes) ==> after == Success
    {
      hide RegistryOk, FramesOk, Flatten, SequenceOk, NamespaceOk, DefaultsOk, AllBindings, Gathered, ValuesOk;
      hide InStep, KeyOf, WantedOf, Now, AllTried, Actions;
      ghost var t := Records();
      a, after := DeclareAnyAttribute(ns, name, [], before);
      NamespacesOkGrow(namespaces, AllBindings(frames), t, Records());
    }
  }
}
