/**
 What keeps a start tag from being printed: an attribute whose namespace has no declaration, or
 the declaration of no prefix; and how this comes about.
 */
module Failures {
  import opened Options
  import opened Bytes
  import opened StatusCodes
  import opened Tables
  import opened ElementStack
  import opened Events
  import opened WriterState
  import opened Scoping
  import opened Requests
  import opened Scenes

  // ---------- Printing ----------

  /** Why an attribute in a namespace with these fields cannot be printed, if it cannot. */
  function FailureOf(c: Cached, xmlns: Attribute): Status {
    if c.declaration == null then NullDeclaration
    else if c.declaration != xmlns then Success
    else if c.baroque then AttributeInDefaultNamespace
    else ReadPastName
  }

  /** The first failure of those attributes that have been gathered. */
  function FirstFailure(
    aa: seq<Attribute>, gathered: map<Attribute, bytes>, m: map<Namespace, Cached>, xmlns: Attribute): Status
  {
    if aa == [] then Success
    else
      var a, before := aa[|aa| - 1], FirstFailure(aa[..|aa| - 1], gathered, m, xmlns);
      if before.Success? && a in gathered && a.ns != null && a.ns in m then FailureOf(m[a.ns], xmlns) else before
  }

  lemma FirstFailurePush(
    aa: seq<Attribute>, a: Attribute, gathered: map<Attribute, bytes>, m: map<Namespace, Cached>, xmlns: Attribute)
    ensures FirstFailure(aa + [a], gathered, m, xmlns) ==
            var before := FirstFailure(aa, gathered, m, xmlns);
            if before.Success? && a in gathered && a.ns != null && a.ns in m then FailureOf(m[a.ns], xmlns) else before
  {
    assert (aa + [a])[..|aa|] == aa;
  }

  lemma NothingFails(gathered: map<Attribute, bytes>, m: map<Namespace, Cached>, xmlns: Attribute)
    ensures FirstFailure([], gathered, m, xmlns) == Success
  {
  }

  lemma {:induction false} StaysFailed(
    aa: seq<Attribute>, i: nat, gathered: map<Attribute, bytes>, m: map<Namespace, Cached>, xmlns: Attribute)
    requires i <= |aa| && !FirstFailure(aa[..i], gathered, m, xmlns).Success?
    ensures FirstFailure(aa, gathered, m, xmlns) == FirstFailure(aa[..i], gathered, m, xmlns)
  {
    if i < |aa| {
      assert aa[..|aa| - 1][..i] == aa[..i];
      StaysFailed(aa[..|aa| - 1], i, gathered, m, xmlns);
    } else {
      assert aa[..i] == aa;
    }
  }

  lemma {:induction false} AllPrint(
    aa: seq<Attribute>, gathered: map<Attribute, bytes>, m: map<Namespace, Cached>, xmlns: Attribute)
    requires forall a :: a in aa && a in gathered && a.ns != null && a.ns in m ==> FailureOf(m[a.ns], xmlns).Success?
    ensures FirstFailure(aa, gathered, m, xmlns).Success?
  {
    hide FailureOf;
    if aa != [] {
      AllPrint(aa[..|aa| - 1], gathered, m, xmlns);
    }
  }

  /** Attributes in a namespace are looked at if they are provided. */
  lemma IsLookedAt(a: Attribute, t: Registry)
    requires RegistryOk(t) && a in t.attributes && a.ns != null
    ensures a.ns in Caches(t.namespaces) && Caches(t.namespaces)[a.ns] == CachedOf(a.ns)
    ensures a in Gathered(t.attributes) <==> a.provided
  {
    NamespaceOfAttribute(a, t);
  }

  // ---------- How it comes about ----------

  /** No declaration of the namespace is open. */
  predicate Undeclared(s: Scene, ns: Namespace) {
    Count(AllBindings(s.frames), ns) == 0 && !IsXml(ns)
  }

  /** The default prefix is empty, or has been changed. */
  predicate MayBeEmpty(c: Cached, xmlns: Attribute) {
    c.baroque || c.defaultDecl == xmlns
  }

  /** Attributes of these have had their namespaces declared, unless that was not possible: the element is in none. */
  predicate AllTried(gathered: set<Attribute>, s: Scene, xmlns: Attribute)
    requires s.frames != []
  {
    forall a :: a in gathered && a.ns != null ==>
      && a.ns in s.caches
      && (Undeclared(s, a.ns) ==> Top(s.frames).element.ns == null && MayBeEmpty(s.caches[a.ns], xmlns))
  }

  /** The same element is starting, with more declarations; flags stay, and default prefixes do not change without one. */
  predicate Later(s: Scene, s': Scene) {
    && s.frames != [] && s'.frames != [] && Top(s'.frames).element == Top(s.frames).element
    && AllBindings(s.frames) <= AllBindings(s'.frames)
    && forall ns :: ns in s.caches ==>
      && ns in s'.caches
      && (s.caches[ns].baroque ==> s'.caches[ns].baroque)
      && (s'.caches[ns].defaultDecl == s.caches[ns].defaultDecl || s'.caches[ns].baroque)
  }

  lemma StillTried(gathered: set<Attribute>, s: Scene, s': Scene, xmlns: Attribute)
    requires Later(s, s') && AllTried(gathered, s, xmlns)
    ensures AllTried(gathered, s', xmlns)
  {
    hide Count, IsXml;
    var bs, bs' := AllBindings(s.frames), AllBindings(s'.frames);
    forall a | a in gathered && a.ns != null && Undeclared(s', a.ns)
      ensures Undeclared(s, a.ns)
    {
      assert bs' == bs + bs'[|bs|..];
      CountConcat(bs, bs'[|bs|..], a.ns);
    }
  }

  lemma BoundIsLater(s: Scene, ns: Namespace, decl: Attribute)
    requires s.frames != [] && ns in s.caches
    ensures Later(s, Bound(s, ns, decl))
  {
    hide AllBindings;
    AllBindingsPushBinding(s.frames, Binding(ns, decl));
  }

  lemma AttemptedIsLater(s: Scene, ns: Namespace, decl: Attribute, xmlns: Attribute)
    requires s.frames != [] && ns in s.caches
    ensures Later(s, Attempted(s, ns, decl, xmlns))
  {
    hide Bound;
    BoundIsLater(s, ns, decl);
  }

  lemma AttemptedByIsLater(s: Scene, ns: Namespace, decl: Attribute, xmlns: Attribute)
    requires s.frames != [] && ns in s.caches
    ensures Later(s, AttemptedBy(s, ns, decl, xmlns))
  {
    hide Attempted;
    AttemptedIsLater(FlaggedUnless(s, ns, decl), ns, decl, xmlns);
  }

  lemma UndefaultedIsLater(s: Scene, xmlns: Attribute)
    requires s.frames != []
    ensures Later(s, Undefaulted(s, xmlns))
  {
    hide AllBindings;
    AllBindingsPushBinding(s.frames, Binding(null, xmlns));
  }

  lemma SettledIsLater(s: Scene, xmlns: Attribute)
    requires s.frames != []
    ensures Later(s, Settled(s, xmlns))
  {
    hide Attempted, Undefaulted;
    var ns := Top(s.frames).element.ns;
    if ns == null {
      UndefaultedIsLater(s, xmlns);
    } else if ns in s.caches && s.caches[ns].defaultDecl != null {
      AttemptedIsLater(s, ns, s.caches[ns].defaultDecl, xmlns);
    }
  }

  lemma DeclaredIsLater(s: Scene, ns: Namespace, c: Cached, prefix: Option<CString>, serial: nat, xmlns: Attribute)
    requires s.frames != [] && NamespaceDeclared(s.caches, ns, c, prefix, serial, xmlns)
    ensures Later(s, s.(caches := s.caches[ns := c]))
  {
  }

  /** One more attribute: its namespace is declared now, but for an empty prefix on an element in no namespace. */
  lemma TriedOneMore(gathered: set<Attribute>, a: Attribute, s: Scene, xmlns: Attribute)
    requires s.frames != [] && AllTried(gathered, s, xmlns)
    requires a.ns != null && a.ns in s.caches && s.caches[a.ns].defaultDecl != null
    requires s.caches[a.ns].declCount == PreWired(a.ns) + Count(AllBindings(s.frames), a.ns)
    ensures AllTried(gathered + {a}, AttemptedByDefault(s, a.ns, xmlns), xmlns)
  {
    var s' := AttemptedByDefault(s, a.ns, xmlns);
    AttemptedIsLater(s, a.ns, s.caches[a.ns].defaultDecl, xmlns);
    StillTried(gathered, s, s', xmlns);
    AttemptDeclares(s, a.ns, s.caches[a.ns].defaultDecl, xmlns);
  }

  lemma AttemptDeclares(s: Scene, ns: Namespace, decl: Attribute, xmlns: Attribute)
    requires s.frames != [] && ns in s.caches
    requires s.caches[ns].declCount == PreWired(ns) + Count(AllBindings(s.frames), ns)
    ensures var s' := Attempted(s, ns, decl, xmlns);
            Undeclared(s', ns) ==> s' == s && Top(s.frames).element.ns == null && decl == xmlns
  {
    hide AllBindings;
    var bs, b := AllBindings(s.frames), Binding(ns, decl);
    AllBindingsPushBinding(s.frames, b);
    CountConcat(bs, [b], ns);
    LastConcerningCounts(bs, ns, decl);
    TopCounts(s.frames, ns);
  }

  lemma TopCounts(frames: seq<Frame>, ns: Namespace)
    requires frames != []
    ensures Count(AllBindings(frames), ns) >= Count(Top(frames).bindings, ns)
  {
    CountConcat(AllBindings(Below(frames)), Top(frames).bindings, ns);
  }

  /**
   The attributes that cannot be printed. Without an open declaration of the namespace the element is in
   none, the default prefix is or was empty, and the namespace was never declared or last by `xmlns`. With
   one, that is the default namespace's.
   */
  predicate Unprintable(a: Attribute, s: Scene, xmlns: Attribute)
    requires s.frames != []
  {
    && a.ns != null && a.ns in s.caches
    && var c := s.caches[a.ns];
       if Undeclared(s, a.ns) then
         && Top(s.frames).element.ns == null && MayBeEmpty(c, xmlns)
         && (c.declaration == null || c.declaration == xmlns)
       else if c.baroque then LastDeclaredBy(s, a.ns, xmlns)
       else c.defaultDecl == xmlns
  }

  /** The innermost open declaration of the namespace is that of the default namespace. */
  predicate LastDeclaredBy(s: Scene, ns: Namespace, xmlns: Attribute) {
    if Count(AllBindings(s.frames), ns) > 0 then ElementStack.Innermost(AllBindings(s.frames), ns) == Some(xmlns)
    else ns in s.caches && s.caches[ns].declaration == xmlns
  }

  /** What comes of printing such an attribute. */
  function Outcome(a: Attribute, s: Scene, xmlns: Attribute): Status
    requires s.frames != [] && a.ns != null && a.ns in s.caches
  {
    if s.caches[a.ns].baroque && s.caches[a.ns].declaration == xmlns then AttributeInDefaultNamespace
    else if Undeclared(s, a.ns) && s.caches[a.ns].declaration == null then NullDeclaration
    else ReadPastName
  }

  lemma FailureCause(a: Attribute, gathered: set<Attribute>, s: Scene, t: Registry)
    requires s.frames != [] && AllTried(gathered, s, t.xmlns) && a in gathered && a.ns != null && RegistryOk(t)
    requires a.ns in s.caches && s.caches[a.ns] == CachedOf(a.ns) && NamespaceOk(a.ns, AllBindings(s.frames), t)
    ensures FailureOf(s.caches[a.ns], t.xmlns) == if Unprintable(a, s, t.xmlns) then Outcome(a, s, t.xmlns) else Success
  {
    hide SortedKeys, Keys, SortedStrings;
  }

  /**
   What printing these attributes comes to: it succeeds exactly if none of them is unprintable, and
   otherwise it is the first of those that are that tells.
   */
  predicate Explained(r: Status, aa: seq<Attribute>, gathered: set<Attribute>, s: Scene, xmlns: Attribute)
    requires s.frames != []
  {
    && (r.Success? <==> forall a :: a in aa && a in gathered ==> !Unprintable(a, s, xmlns))
    && (!r.Success? ==>
          exists i :: 0 <= i < |aa| && IsFirst(i, aa, gathered, s, xmlns) && r == Outcome(aa[i], s, xmlns))
  }

  predicate IsFirst(i: nat, aa: seq<Attribute>, gathered: set<Attribute>, s: Scene, xmlns: Attribute)
    requires s.frames != [] && i < |aa|
  {
    && aa[i] in gathered && Unprintable(aa[i], s, xmlns)
    && forall j :: 0 <= j < i && aa[j] in gathered ==> !Unprintable(aa[j], s, xmlns)
  }

  lemma {:induction false} FirstFailureExplained(
    aa: seq<Attribute>, gathered: map<Attribute, bytes>, s: Scene, xmlns: Attribute)
    requires s.frames != []
    requires forall a :: a in aa && a in gathered && a.ns != null ==>
               && a.ns in s.caches
               && FailureOf(s.caches[a.ns], xmlns) == if Unprintable(a, s, xmlns) then Outcome(a, s, xmlns) else Success
    ensures Explained(FirstFailure(aa, gathered, s.caches, xmlns), aa, gathered.Keys, s, xmlns)
  {
    hide FailureOf, Undeclared, MayBeEmpty, LastDeclaredBy;
    if aa != [] {
      var rest, last := aa[..|aa| - 1], |aa| - 1;
      FirstFailureExplained(rest, gathered, s, xmlns);
      var before := FirstFailure(rest, gathered, s.caches, xmlns);
      if !before.Success? {
        var i :| 0 <= i < |rest| && IsFirst(i, rest, gathered.Keys, s, xmlns) && before == Outcome(rest[i], s, xmlns);
        assert rest[i] == aa[i] && IsFirst(i, aa, gathered.Keys, s, xmlns);
      } else if aa[last] in gathered && Unprintable(aa[last], s, xmlns) {
        assert IsFirst(last, aa, gathered.Keys, s, xmlns);
      }
    }
  }
}
