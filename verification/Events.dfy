/**
 What the writer has written, as a sequence of tags and text, with two independent
 checkers: one for well-formedness and one for namespace scoping.
 */
module Events {
  import opened Options
  import opened Bytes
  import opened StatusCodes
  import opened Utf8
  import opened Escape
  import opened Tables

  /** An attribute as printed in a start tag. */
  datatype TagAttribute = TagAttribute(key: Key, prefix: Option<bytes>, value: bytes)

  datatype Event =
    | StartTag(prefix: Option<bytes>, uri: Option<bytes>, kind: bytes, attributes: seq<TagAttribute>)
    | EndTag(prefix: Option<bytes>, kind: bytes)
    | Chars(octets: bytes)
    | Comment(text: bytes)
    | LineBreak

  // ---------- Octets ----------

  const COMMENT_OPEN: bytes := [0x3c, 0x21, 0x2d, 0x2d]  // <!--
  const COMMENT_CLOSE: bytes := [0x2d, 0x2d, 0x3e]       // -->

  function Qualified(prefix: Option<bytes>, name: bytes): bytes {
    match prefix
    case None => name
    case Some(p) => p + [0x3a] + name
  }

  function RenderAttribute(a: TagAttribute): bytes {
    [0x20] + Qualified(a.prefix, a.key.name) + [0x3d, 0x22] + a.value + [0x22]
  }

  function RenderAttributes(attrs: seq<TagAttribute>): bytes {
    if attrs == [] then []
    else RenderAttributes(attrs[..|attrs| - 1]) + RenderAttribute(attrs[|attrs| - 1])
  }

  function Render(e: Event): bytes {
    match e
    case StartTag(prefix, _, kind, attrs) => [0x3c] + Qualified(prefix, kind) + RenderAttributes(attrs) + [0x3e]
    case EndTag(prefix, kind) => [0x3c, 0x2f] + Qualified(prefix, kind) + [0x3e]
    case Chars(octets) => octets
    case Comment(text) => COMMENT_OPEN + text + COMMENT_CLOSE
    case LineBreak => [0x0a]
  }

  function RenderAll(events: seq<Event>): bytes {
    if events == [] then [] else RenderAll(events[..|events| - 1]) + Render(events[|events| - 1])
  }

  lemma RenderPush(events: seq<Event>, e: Event)
    ensures RenderAll(events + [e]) == RenderAll(events) + Render(e)
  {
    assert (events + [e])[..|events|] == events;
  }

  // ---------- Well-formedness ----------

  /** The open elements, by what their start tags were named, and whether there was a root already. */
  datatype Progress = Progress(open: seq<(Option<bytes>, bytes)>, rootSeen: bool)

  /** AttValue of XML 1.0: no quote, every reference resolves. */
  predicate IsAttributeValue(value: bytes) {
    Resolved(value).Some? && forall i :: 0 <= i < |value| ==> value[i] != 0x22
  }

  function TagKeys(attrs: seq<TagAttribute>): (ks: seq<Key>)
    ensures |ks| == |attrs|
    ensures forall i :: 0 <= i < |attrs| ==> ks[i] == attrs[i].key
  {
    seq(|attrs|, i requires 0 <= i < |attrs| => attrs[i].key)
  }

  /** Attributes strictly increase, which also rules out repetitions, and have proper keys and values. */
  predicate AttributesAreFine(attrs: seq<TagAttribute>) {
    && SortedKeys(TagKeys(attrs))
    && (forall i :: 0 <= i < |attrs| ==> IsKey(attrs[i].key))
    && forall i :: 0 <= i < |attrs| ==> IsAttributeValue(attrs[i].value)
  }

  /** Comment of section 2.5 of XML 1.0, without a leading hyphen as well. */
  predicate IsCommentText(text: bytes) {
    && IsText(text)
    && forall i :: 0 <= i < |text| && text[i] == 0x2d ==> 0 < i < |text| - 1 && text[i + 1] != 0x2d
  }

  function Next(p: Progress, e: Event): Option<Progress> {
    match e
    case StartTag(prefix, _, kind, attrs) =>
      if (p.open == [] && p.rootSeen) || !AttributesAreFine(attrs) then None
      else Some(Progress(p.open + [(prefix, kind)], true))
    case EndTag(prefix, kind) =>
      if p.open == [] || p.open[|p.open| - 1] != (prefix, kind) then None
      else Some(p.(open := p.open[..|p.open| - 1]))
    case Chars(octets) =>
      if p.open == [] || Resolved(octets).None? then None else Some(p)
    case Comment(text) =>
      if IsCommentText(text) then Some(p) else None
    case LineBreak =>
      if p.open == [] then Some(p) else None
  }

  function Check(events: seq<Event>): Option<Progress> {
    if events == [] then Some(Progress([], false))
    else
      match Check(events[..|events| - 1])
      case None => None
      case Some(p) => Next(p, events[|events| - 1])
  }

  /** One balanced root element, every end tag named like the start tag it closes. */
  predicate IsDocument(events: seq<Event>) {
    Check(events) == Some(Progress([], true))
  }

  lemma CheckPush(events: seq<Event>, e: Event)
    ensures Check(events + [e]) == match Check(events) case None => None case Some(p) => Next(p, e)
  {
    assert (events + [e])[..|events|] == events;
  }

  /** A checked sequence of events opens as many elements as it closes, plus the ones still open. */
  function Starts(events: seq<Event>): nat {
    if events == [] then 0
    else Starts(events[..|events| - 1]) + (if events[|events| - 1].StartTag? then 1 else 0)
  }

  function Ends(events: seq<Event>): nat {
    if events == [] then 0
    else Ends(events[..|events| - 1]) + (if events[|events| - 1].EndTag? then 1 else 0)
  }

  lemma {:induction false} CheckedIsBalanced(events: seq<Event>)
    ensures Check(events).Some? ==> Starts(events) == Ends(events) + |Check(events).value.open|
  {
    if events != [] {
      CheckedIsBalanced(events[..|events| - 1]);
    }
  }

  // ---------- Canonical order ----------

  /** The order of section 2.2 of Canonical XML 1.0. */
  predicate IsCanonical(attrs: seq<TagAttribute>) {
    forall i, j :: 0 <= i < j < |attrs| ==> CanonicallyBefore(attrs[i].key, attrs[j].key)
  }

  /** Exactly the misplaced names are the exception. */
  lemma TagIsCanonicalIff(attrs: seq<TagAttribute>)
    requires AttributesAreFine(attrs)
    ensures IsCanonical(attrs) <==> forall k1, k2 :: k1 in attrs && k2 in attrs ==> !IsMisplaced(k1.key, k2.key)
  {
    hide CanonicallyBefore, IsMisplaced, KeyOrder, IsKey, IsAttributeValue;
    forall i, j | 0 <= i < j < |attrs|
      ensures CanonicallyBefore(attrs[i].key, attrs[j].key) <==> !IsMisplaced(attrs[i].key, attrs[j].key)
      ensures !IsMisplaced(attrs[j].key, attrs[i].key)
    {
      var k1, k2 := attrs[i].key, attrs[j].key;
      assert KeyOrder(TagKeys(attrs)[i], TagKeys(attrs)[j]) < 0;
      SmallerIsNotMisplaced(k1, k2);
      OrderIsCanonicalIff(k1, k2);
    }
    forall i | 0 <= i < |attrs| ensures !IsMisplaced(attrs[i].key, attrs[i].key) {
      NeverBeforeItself(attrs[i].key);
    }
  }

  lemma SmallerIsNotMisplaced(k1: Key, k2: Key)
    requires IsKey(k1) && IsKey(k2) && KeyOrder(k1, k2) < 0
    ensures !IsMisplaced(k2, k1) && k1 != k2
  {
    CompareAntisymmetric(k1.name, k2.name);
  }

  lemma NeverBeforeItself(k: Key)
    ensures !IsMisplaced(k, k)
  {
  }

  /** In a document this is so for every start tag. */
  lemma {:induction false} TagsAreCanonicalIff(events: seq<Event>, i: nat)
    requires Check(events).Some? && i < |events| && events[i].StartTag?
    ensures var attrs := events[i].attributes;
            IsCanonical(attrs) <==> forall k1, k2 :: k1 in attrs && k2 in attrs ==> !IsMisplaced(k1.key, k2.key)
  {
    hide AttributesAreFine, IsMisplaced, IsCanonical;
    if i == |events| - 1 {
      TagIsCanonicalIff(events[i].attributes);
    } else {
      TagsAreCanonicalIff(events[..|events| - 1], i);
    }
  }

  // ---------- Namespace scoping ----------

  const XML_PREFIX: bytes := [0x78, 0x6d, 0x6c]                                    // xml
  const XMLNS_XML: bytes := [0x78, 0x6d, 0x6c, 0x6e, 0x73, 0x3a, 0x78, 0x6d, 0x6c] // xmlns:xml
  /** http://www.w3.org/XML/1998/namespace */
  const XML_URI: bytes :=
    [0x68, 0x74, 0x74, 0x70, 0x3a, 0x2f, 0x2f, 0x77, 0x77, 0x77, 0x2e, 0x77, 0x33, 0x2e, 0x6f, 0x72, 0x67, 0x2f,
     0x58, 0x4d, 0x4c, 0x2f, 0x31, 0x39, 0x39, 0x38, 0x2f, 0x6e, 0x61, 0x6d, 0x65, 0x73, 0x70, 0x61, 0x63, 0x65]

  /** Prefixes in scope with the namespace names they stand for. */
  type Scope = set<(bytes, bytes)>

  predicate DeclaresPrefix(a: TagAttribute) {
    a.key.atype == NsDecl && XMLNS_COLON < a.key.name
  }

  function Declaration(a: TagAttribute): (bytes, bytes)
    requires DeclaresPrefix(a)
  {
    (DeclaredPrefix(a.key.name), match Resolved(a.value) case Some(uri) => uri case None => [])
  }

  function DeclaredBy(attrs: seq<TagAttribute>): Scope {
    set a | a in attrs && DeclaresPrefix(a) :: Declaration(a)
  }

  /** Section 6.1 of Namespaces in XML 1.0: the prefix stands for `uri` here. */
  predicate Stands(scope: Scope, prefix: Option<bytes>, uri: bytes) {
    && prefix.Some?
    && (
         || (prefix.value, uri) in scope
         || (prefix.value == XML_PREFIX && uri == XML_URI)
       )
    && forall d :: d in scope && d.0 == prefix.value ==> d.1 == uri
  }

  /** No prefix and no namespace name is declared by both, or twice by `added`. */
  predicate NewDeclarations(scope: Scope, added: Scope) {
    && (forall d, e :: d in added && e in scope ==> d.0 != e.0 && d.1 != e.1)
    && (forall d, e :: d in added && e in added ==> (d.0 == e.0 <==> d.1 == e.1))
  }

  predicate TagIsScoped(scope: Scope, e: Event)
    requires e.StartTag?
  {
    var inner := scope + DeclaredBy(e.attributes);
    && NewDeclarations(scope, DeclaredBy(e.attributes))
    && (forall a :: a in e.attributes ==> !(a.key.atype == NsDecl && a.key.name == XMLNS))
    && (e.uri.Some? ==> Stands(inner, e.prefix, e.uri.value))
    && (e.uri.None? ==> e.prefix.None?)
    && (forall a :: a in e.attributes && a.key.atype == Prefixed ==> Stands(inner, a.prefix, a.key.uri))
    && (forall a :: a in e.attributes && a.key.atype != Prefixed ==> a.prefix.None?)
  }

  function CurrentScope(scopes: seq<Scope>): Scope {
    if scopes == [] then {} else scopes[|scopes| - 1]
  }

  function NextScopes(scopes: seq<Scope>, e: Event): Option<seq<Scope>> {
    match e
    case StartTag(_, _, _, attrs) =>
      if TagIsScoped(CurrentScope(scopes), e) then Some(scopes + [CurrentScope(scopes) + DeclaredBy(attrs)]) else None
    case EndTag(_, _) =>
      if scopes == [] then None else Some(scopes[..|scopes| - 1])
    case _ => Some(scopes)
  }

  /** The scopes of the open elements, if every tag so far used prefixes as declared around it. */
  function Scopes(events: seq<Event>): Option<seq<Scope>> {
    if events == [] then Some([])
    else
      match Scopes(events[..|events| - 1])
      case None => None
      case Some(scopes) => NextScopes(scopes, events[|events| - 1])
  }

  lemma ScopesPush(events: seq<Event>, e: Event)
    ensures Scopes(events + [e]) == match Scopes(events) case None => None case Some(s) => NextScopes(s, e)
  {
    assert (events + [e])[..|events|] == events;
  }
}
