/**
 What declarations are kept in, as values: the stack, and the fields cached in namespaces. Each
 step of the writer is a function here; which of these steps a call takes is said where it is made.
 */
module Scenes {
  import opened Options
  import opened Bytes
  import opened Tables
  import opened ElementStack
  import opened Events
  import opened WriterState
  import opened Scoping

  datatype Scene = Scene(frames: seq<Frame>, caches: map<Namespace, Cached>)

  /** A new element is opened. */
  function Opened(s: Scene, e: Element): Scene {
    s.(frames := s.frames + [Frame(e, [])])
  }

  /** A namespace is declared by `decl` on the top element. */
  function Bound(s: Scene, ns: Namespace, decl: Attribute): Scene
    requires s.frames != [] && ns in s.caches
  {
    Scene(
      PushBinding(s.frames, Binding(ns, decl)),
      s.caches[ns := s.caches[ns].(declaration := decl, declCount := s.caches[ns].declCount + 1)])
  }

  /** Declarations of a namespace will be looked for on the stack. */
  function Flagged(s: Scene, ns: Namespace): Scene
    requires ns in s.caches
  {
    s.(caches := s.caches[ns := s.caches[ns].(baroque := true)])
  }

  /** What becomes of the attempt to declare `ns` by `decl`. */
  function FateIn(s: Scene, ns: Namespace, decl: Attribute, xmlns: Attribute): Fate
    requires s.frames != [] && ns in s.caches
  {
    FateOf(ns, decl, s.caches[ns].declCount, s.caches[ns].baroque, s.frames, xmlns)
  }

  /** There was an attempt to declare `ns` by `decl`. */
  function Attempted(s: Scene, ns: Namespace, decl: Attribute, xmlns: Attribute): Scene
    requires s.frames != [] && ns in s.caches
  {
    if FateIn(s, ns, decl, xmlns) == Declared then Bound(s, ns, decl) else s
  }

  /** There was one to declare it by its default prefix. */
  function AttemptedByDefault(s: Scene, ns: Namespace, xmlns: Attribute): Scene {
    if s.frames == [] || ns !in s.caches || s.caches[ns].defaultDecl == null then s
    else Attempted(s, ns, s.caches[ns].defaultDecl, xmlns)
  }

  /** There was one to declare it by `decl`, which may be another than the default. */
  function AttemptedBy(s: Scene, ns: Namespace, decl: Attribute, xmlns: Attribute): Scene
    requires s.frames != [] && ns in s.caches
  {
    Attempted(FlaggedUnless(s, ns, decl), ns, decl, xmlns)
  }

  /** The flag is set if `decl` is not the default. */
  function FlaggedUnless(s: Scene, ns: Namespace, decl: Attribute): Scene
    requires ns in s.caches
  {
    if decl == s.caches[ns].defaultDecl then s else Flagged(s, ns)
  }

  /** The default namespace is undeclared, if one was declared. */
  function Undefaulted(s: Scene, xmlns: Attribute): Scene
    requires s.frames != []
  {
    var found := LastBy(AllBindings(s.frames), xmlns);
    if found.Some? && found.value.ns != null && found.value.ns in s.caches then
      Overridden(s, found.value.ns, xmlns)
    else s
  }

  /** The default namespace, which was declared for `ns`, is undeclared. */
  function Overridden(s: Scene, ns: Namespace, xmlns: Attribute): Scene
    requires s.frames != [] && ns in s.caches
  {
    Flagged(s, ns).(frames := PushBinding(s.frames, Binding(null, xmlns)))
  }

  /** The top element is ready to be printed. */
  function Settled(s: Scene, xmlns: Attribute): Scene
    requires s.frames != []
  {
    var ns := Top(s.frames).element.ns;
    if ns == null then Undefaulted(s, xmlns) else AttemptedByDefault(s, ns, xmlns)
  }

  /** The start tag, if there is one being gathered, is finished. */
  function Left(s: Scene, starting: bool, xmlns: Attribute): Scene {
    if starting && s.frames != [] then Settled(s, xmlns) else s
  }

  /** The cached fields after one declaration has been undone; `rest` are those that are left. */
  function Unbound(c: Cached, ns: Namespace, rest: seq<Binding>): Cached {
    var left := ElementStack.Innermost(rest, ns);
    c.(declaration := if c.baroque && left.Some? then left.value else c.declaration,
       declCount := c.declCount - 1,
       baroque := c.baroque && c.declCount != 1)
  }

  /** The innermost declaration is undone. */
  function Dropped(s: Scene): Scene
    requires s.frames != [] && Top(s.frames).bindings != []
  {
    var b, less := Top(s.frames).bindings[|Top(s.frames).bindings| - 1], DropBinding(s.frames);
    Scene(
      less,
      if b.ns == null || b.ns !in s.caches then s.caches
      else s.caches[b.ns := Unbound(s.caches[b.ns], b.ns, AllBindings(less))])
  }

  /** All declarations of the top element are undone. */
  function Bared(s: Scene): (r: Scene)
    requires s.frames != []
    ensures r.frames == WithTop(s.frames, [])
    decreases |Top(s.frames).bindings|
  {
    if Top(s.frames).bindings == [] then
      assert s.frames == WithTop(s.frames, []);
      s
    else Bared(Dropped(s))
  }

  /** The top element is closed. */
  function Closed(s: Scene): Scene {
    if s.frames == [] then s else Bared(s).(frames := Below(s.frames))
  }

  /**
   The innermost open element is in the xml namespace without a declaration on the stack, and what is
   cached is left from a declaration by another prefix.
   */
  predicate XmlIsStale(s: Scene) {
    s.frames != [] &&
    var ns := Top(s.frames).element.ns;
    && ns != null && IsXml(ns) && Count(AllBindings(s.frames), ns) == 0
    && ns in s.caches && s.caches[ns].declaration != null && s.caches[ns].declaration.name != XMLNS_XML
  }

  /** The prefix printed from the cached fields. */
  function NamePrefix(c: Cached, xmlns: Attribute): Option<bytes> {
    if c.declaration == null || c.declaration == xmlns then None else Some(PrefixName(c.declaration))
  }

  /** It is that of the declarations in effect, but for the xml namespace. */
  lemma NamePrefixIs(s: Scene, t: Registry)
    requires s.frames != [] && RegistryOk(t)
    requires var ns := Top(s.frames).element.ns;
             ns != null ==>
               && ns in s.caches && s.caches[ns] == CachedOf(ns) && NamespaceOk(ns, AllBindings(s.frames), t)
               && (Count(AllBindings(s.frames), ns) > 0 || IsXml(ns))
    ensures var e := Top(s.frames).element;
            (if e.ns == null then None else NamePrefix(s.caches[e.ns], t.xmlns)) == ElementPrefix(e, AllBindings(s.frames))
            <==> !XmlIsStale(s)
  {
    hide RegistryOk, AllBindings;
    XmlnsIsNamed(t);
    assert XMLNS_XML == XMLNS_COLON + XML_PREFIX;
    var e, bs := Top(s.frames).element, AllBindings(s.frames);
    if e.ns != null && Count(bs, e.ns) > 0 {
      CachedPrefix(e, bs, t);
    }
  }
}
