/**
 The writer's one stack. It interleaves elements, null separators and pairs of a
 namespace and the attribute that declares it; here it is read back as frames.
 */
module ElementStack {
  import opened Options
  import opened Bytes
  import opened Tables

  /** One declaration in effect; no namespace when it is `xmlns=""`. */
  datatype Binding = Binding(ns: Namespace?, decl: Attribute)

  /** An open element with the declarations made on it. */
  datatype Frame = Frame(element: Element, bindings: seq<Binding>)

  datatype Entry = Null | AnElement(element: Element) | ANamespace(ns: Namespace) | ADecl(decl: Attribute)

  // ---------- The flat form ----------

  function NamespaceEntry(ns: Namespace?): Entry {
    if ns == null then Null else ANamespace(ns)
  }

  function FlatBindings(bs: seq<Binding>): seq<Entry> {
    if bs == [] then []
    else
      var b := bs[|bs| - 1];
      FlatBindings(bs[..|bs| - 1]) + [NamespaceEntry(b.ns), ADecl(b.decl)]
  }

  function Flatten(frames: seq<Frame>): seq<Entry> {
    if frames == [] then []
    else
      var f := frames[|frames| - 1];
      Flatten(frames[..|frames| - 1]) + [AnElement(f.element), Null] + FlatBindings(f.bindings)
  }

  // ---------- Changing the top ----------

  function Top(frames: seq<Frame>): Frame
    requires frames != []
  {
    frames[|frames| - 1]
  }

  function Below(frames: seq<Frame>): seq<Frame>
    requires frames != []
  {
    frames[..|frames| - 1]
  }

  function WithTop(frames: seq<Frame>, bs: seq<Binding>): seq<Frame>
    requires frames != []
  {
    Below(frames) + [Top(frames).(bindings := bs)]
  }

  /** Without the innermost declaration of the top element. */
  function DropBinding(frames: seq<Frame>): seq<Frame>
    requires frames != [] && Top(frames).bindings != []
  {
    WithTop(frames, Top(frames).bindings[..|Top(frames).bindings| - 1])
  }

  function PushBinding(frames: seq<Frame>, b: Binding): seq<Frame>
    requires frames != []
  {
    WithTop(frames, Top(frames).bindings + [b])
  }

  lemma FlattenPushFrame(frames: seq<Frame>, e: Element)
    ensures Flatten(frames + [Frame(e, [])]) == Flatten(frames) + [AnElement(e)] + [Null]
  {
    var all := frames + [Frame(e, [])];
    assert all[..|all| - 1] == frames;
  }

  lemma FlattenPushBinding(frames: seq<Frame>, b: Binding)
    requires frames != []
    ensures Flatten(PushBinding(frames, b)) == Flatten(frames) + [NamespaceEntry(b.ns)] + [ADecl(b.decl)]
  {
    var bs := Top(frames).bindings;
    var all := PushBinding(frames, b);
    assert Below(all) == Below(frames) && (bs + [b])[..|bs|] == bs;
  }

  /** What the top of the flat stack shows. */
  lemma FlattenTop(frames: seq<Frame>)
    requires frames != []
    ensures var s, bs := Flatten(frames), Top(frames).bindings;
            && |s| >= 2
            && (bs == [] ==>
                  && s == Flatten(Below(frames)) + [AnElement(Top(frames).element), Null]
                  && s[|s| - 1] == Null && s[|s| - 2] == AnElement(Top(frames).element))
            && (bs != [] ==>
                  && |s| >= 4
                  && s[|s| - 1] == ADecl(bs[|bs| - 1].decl)
                  && s[|s| - 2] == NamespaceEntry(bs[|bs| - 1].ns)
                  && s[..|s| - 2] == Flatten(DropBinding(frames)))
  {
    var bs := Top(frames).bindings;
    if bs != [] {
      var less := DropBinding(frames);
      assert Below(less) == Below(frames);
      var b := bs[|bs| - 1];
      assert Flatten(frames) == Flatten(less) + [NamespaceEntry(b.ns), ADecl(b.decl)];
    }
  }

  // ---------- Declarations in effect ----------

  /** All declarations on open elements, outermost first. */
  function AllBindings(frames: seq<Frame>): seq<Binding> {
    if frames == [] then [] else AllBindings(Below(frames)) + Top(frames).bindings
  }

  lemma AllBindingsPushFrame(frames: seq<Frame>, e: Element)
    ensures AllBindings(frames + [Frame(e, [])]) == AllBindings(frames)
  {
    assert Below(frames + [Frame(e, [])]) == frames;
  }

  lemma AllBindingsPushBinding(frames: seq<Frame>, b: Binding)
    requires frames != []
    ensures AllBindings(PushBinding(frames, b)) == AllBindings(frames) + [b]
  {
    assert Below(PushBinding(frames, b)) == Below(frames);
  }

  lemma AllBindingsDrop(frames: seq<Frame>)
    requires frames != []
    ensures var bs, all := Top(frames).bindings, AllBindings(frames);
            && (bs == [] ==> AllBindings(Below(frames)) == all)
            && (bs != [] ==>
                  && all != [] && all[|all| - 1] == bs[|bs| - 1]
                  && AllBindings(DropBinding(frames)) == all[..|all| - 1])
  {
    if Top(frames).bindings != [] {
      assert Below(DropBinding(frames)) == Below(frames);
    }
  }

  /** How many open declarations a namespace has. */
  function Count(bs: seq<Binding>, ns: Namespace): nat {
    if bs == [] then 0
    else Count(bs[..|bs| - 1], ns) + (if bs[|bs| - 1].ns == ns then 1 else 0)
  }

  /** The innermost declaration of a namespace. */
  function Innermost(bs: seq<Binding>, ns: Namespace): (d: Option<Attribute>)
    ensures d.Some? <==> Count(bs, ns) > 0
  {
    if bs == [] then None
    else if bs[|bs| - 1].ns == ns then Some(bs[|bs| - 1].decl)
    else Innermost(bs[..|bs| - 1], ns)
  }

  /** The innermost declaration that is of namespace `ns` or made by `decl`. */
  function LastConcerning(bs: seq<Binding>, ns: Namespace, decl: Attribute): Option<Binding> {
    if bs == [] then None
    else if bs[|bs| - 1].ns == ns || bs[|bs| - 1].decl == decl then Some(bs[|bs| - 1])
    else LastConcerning(bs[..|bs| - 1], ns, decl)
  }

  /** The innermost declaration made by `decl`. */
  function LastBy(bs: seq<Binding>, decl: Attribute): Option<Binding> {
    if bs == [] then None
    else if bs[|bs| - 1].decl == decl then Some(bs[|bs| - 1])
    else LastBy(bs[..|bs| - 1], decl)
  }

  lemma Pushed(bs: seq<Binding>, b: Binding)
    ensures (bs + [b])[..|bs + [b]| - 1] == bs && (bs + [b])[|bs + [b]| - 1] == b
  {
  }

  lemma {:induction false} LastConcerningCounts(bs: seq<Binding>, ns: Namespace, decl: Attribute)
    ensures LastConcerning(bs, ns, decl) == Some(Binding(ns, decl)) ==> Count(bs, ns) > 0
    ensures Count(bs, ns) > 0 ==> LastConcerning(bs, ns, decl).Some?
  {
    if bs != [] {
      LastConcerningCounts(bs[..|bs| - 1], ns, decl);
    }
  }

  lemma {:induction false} CountMember(bs: seq<Binding>, ns: Namespace)
    ensures Count(bs, ns) == 0 <==> forall i :: 0 <= i < |bs| ==> bs[i].ns != ns
  {
    if bs != [] {
      CountMember(bs[..|bs| - 1], ns);
    }
  }

  lemma {:induction false} CountConcat(bs: seq<Binding>, cs: seq<Binding>, ns: Namespace)
    ensures Count(bs + cs, ns) == Count(bs, ns) + Count(cs, ns)
  {
    if cs == [] {
      assert bs + cs == bs;
    } else {
      assert (bs + cs)[..|bs + cs| - 1] == bs + cs[..|cs| - 1];
      CountConcat(bs, cs[..|cs| - 1], ns);
    }
  }

  lemma {:induction false} InnermostMember(bs: seq<Binding>, ns: Namespace)
    ensures Innermost(bs, ns).Some? ==> Binding(ns, Innermost(bs, ns).value) in bs
  {
    if bs != [] && bs[|bs| - 1].ns != ns {
      InnermostMember(bs[..|bs| - 1], ns);
    }
  }

  // ---------- Scans of the flat stack ----------

  /** The reading position `i` is at the top of the frames `rest`. */
  ghost predicate IsAt(stack: seq<Entry>, i: int, rest: seq<Frame>) {
    && -1 <= i < |stack|
    && stack[..i + 1] == Flatten(rest)
    && (rest == [] <==> i == -1)
    && (rest != [] ==> 1 <= i && (stack[i] == Null <==> Top(rest).bindings == []))
  }

  lemma StartsAt(stack: seq<Entry>, i: int, rest: seq<Frame>)
    requires -1 <= i < |stack| && stack[..i + 1] == Flatten(rest)
    ensures IsAt(stack, i, rest)
  {
    if rest != [] {
      FlattenTop(rest);
      assert stack[i] == stack[..i + 1][i];
    }
  }

  lemma StartsAtTop(stack: seq<Entry>, frames: seq<Frame>)
    requires stack == Flatten(frames)
    ensures IsAt(stack, |stack| - 1, frames)
    ensures |stack| > 1 <==> frames != []
    ensures |stack| <= 1 ==> stack == []
  {
    assert stack[..|stack|] == stack;
    StartsAt(stack, |stack| - 1, frames);
  }

  /** Reading the separator and the element below it. */
  lemma ReadElement(stack: seq<Entry>, i: int, rest: seq<Frame>)
    requires 0 < i < |stack| && IsAt(stack, i, rest) && rest != [] && stack[i] == Null
    ensures stack[i - 1] == AnElement(Top(rest).element)
    ensures Top(rest).bindings == [] && IsAt(stack, i - 2, Below(rest))
    ensures i - 2 > 0 <==> Below(rest) != []
    ensures i - 2 >= -1
    ensures AllBindings(Below(rest)) == AllBindings(rest)
  {
    FlattenTop(rest);
    AllBindingsDrop(rest);
    assert stack[..i + 1][..i - 1] == stack[..i - 1];
    assert stack[i - 1] == stack[..i + 1][i - 1];
    StartsAt(stack, i - 2, Below(rest));
  }

  /** Reading a declaration and the namespace below it. */
  lemma ReadBinding(stack: seq<Entry>, i: int, rest: seq<Frame>) returns (b: Binding)
    requires 0 < i < |stack| && IsAt(stack, i, rest) && rest != [] && stack[i] != Null
    ensures stack[i] == ADecl(b.decl) && stack[i - 1] == NamespaceEntry(b.ns)
    ensures Top(rest).bindings != [] && b == Top(rest).bindings[|Top(rest).bindings| - 1]
    ensures IsAt(stack, i - 2, DropBinding(rest)) && DropBinding(rest) != [] && 0 < i - 2
    ensures AllBindings(rest) == AllBindings(DropBinding(rest)) + [b]
  {
    b := Top(rest).bindings[|Top(rest).bindings| - 1];
    FlattenTop(rest);
    AllBindingsDrop(rest);
    assert DropBinding(rest) != [];
    hide Flatten, AllBindings, DropBinding;
    assert AllBindings(rest) == AllBindings(DropBinding(rest)) + [b];
    assert stack[..i + 1][..i - 1] == stack[..i - 1];
    assert stack[i] == stack[..i + 1][i] && stack[i - 1] == stack[..i + 1][i - 1];
    StartsAt(stack, i - 2, DropBinding(rest));
  }

  /**
   addNamespace, first scan: is `decl` the declaration in effect for `ns`, with no inner
   declaration of the namespace or of the prefix in between?
   */
  method IsInEffect(stack: seq<Entry>, ns: Namespace, decl: Attribute, ghost frames: seq<Frame>)
    returns (found: bool)
    requires stack == Flatten(frames)
    ensures found <==> LastConcerning(AllBindings(frames), ns, decl) == Some(Binding(ns, decl))
  {
    hide IsAt, Flatten, AllBindings, LastConcerning, DropBinding, Below;
    ghost var rest := frames;
    var i := |stack| - 1;
    StartsAtTop(stack, frames);
    while i > 0
      invariant -1 <= i < |stack| && IsAt(stack, i, rest) && (i > 0 <==> rest != [])
      invariant LastConcerning(AllBindings(rest), ns, decl) == LastConcerning(AllBindings(frames), ns, decl)
    {
      while stack[i] != Null
        invariant 0 < i < |stack| && IsAt(stack, i, rest) && rest != []
        invariant LastConcerning(AllBindings(rest), ns, decl) == LastConcerning(AllBindings(frames), ns, decl)
        decreases i
      {
        ghost var b := ReadBinding(stack, i, rest);
        rest := DropBinding(rest);
        LastConcerningPush(AllBindings(rest), b, ns, decl);
        var otherDecl, otherNs := stack[i].decl, stack[i - 1];
        if otherNs == ANamespace(ns) {
          return decl == otherDecl;
        } else if decl == otherDecl {
          return false;
        }
        i := i - 2;
      }
      ReadElement(stack, i, rest);
      i := i - 2;
      rest := Below(rest);
    }
    LastConcerningNone(ns, decl);
    found := false;
  }

  lemma LastConcerningNone(ns: Namespace, decl: Attribute)
    ensures LastConcerning(AllBindings([]), ns, decl) == None
  {
  }

  lemma LastConcerningPush(bs: seq<Binding>, b: Binding, ns: Namespace, decl: Attribute)
    ensures LastConcerning(bs + [b], ns, decl) ==
            if b.ns == ns || b.decl == decl then Some(b) else LastConcerning(bs, ns, decl)
  {
    Pushed(bs, b);
  }

  /** addNamespace, second scan: is `ns` declared on the top element? Otherwise `i` is where that element is. */
  method IsOnThisElement(stack: seq<Entry>, ns: Namespace, ghost frames: seq<Frame>)
    returns (found: bool, i: int)
    requires stack == Flatten(frames) && frames != []
    ensures found <==> Count(Top(frames).bindings, ns) > 0
    ensures !found ==> 0 <= i < |stack| && stack[i] == AnElement(Top(frames).element)
  {
    hide IsAt, Flatten, AllBindings;
    ghost var rest := frames;
    i := |stack| - 1;
    StartsAtTop(stack, frames);
    while stack[i] != Null
      invariant 0 < i < |stack| && IsAt(stack, i, rest) && rest != []
      invariant Top(rest).element == Top(frames).element
      invariant Count(Top(rest).bindings, ns) == Count(Top(frames).bindings, ns)
      decreases i
    {
      ghost var b := ReadBinding(stack, i, rest);
      var otherNs := stack[i - 1];
      if otherNs == ANamespace(ns) {
        return true, i;
      }
      i := i - 2;
      rest := DropBinding(rest);
    }
    ReadElement(stack, i, rest);
    i := i - 1;
    found := false;
  }

  /** Only `decl` makes declarations of no namespace. */
  ghost predicate UndeclaredBy(bs: seq<Binding>, decl: Attribute) {
    forall i :: 0 <= i < |bs| && bs[i].ns == null ==> bs[i].decl == decl
  }

  /** unsetDefaultNamespace: the innermost declaration made by `xmlns`. */
  method FindDefault(stack: seq<Entry>, xmlnsEquals: Attribute, ghost frames: seq<Frame>)
    returns (found: Option<Binding>)
    requires stack == Flatten(frames)
    requires UndeclaredBy(AllBindings(frames), xmlnsEquals)
    ensures found == LastBy(AllBindings(frames), xmlnsEquals)
  {
    hide IsAt, Flatten, AllBindings, LastBy, DropBinding, Below, UndeclaredBy;
    ghost var rest := frames;
    var i := |stack| - 1;
    StartsAtTop(stack, frames);
    while i > 0
      invariant -1 <= i < |stack| && IsAt(stack, i, rest) && (i > 0 <==> rest != [])
      invariant LastBy(AllBindings(rest), xmlnsEquals) == LastBy(AllBindings(frames), xmlnsEquals)
      invariant UndeclaredBy(AllBindings(rest), xmlnsEquals)
    {
      while stack[i] != Null
        invariant 0 < i < |stack| && IsAt(stack, i, rest) && rest != []
        invariant LastBy(AllBindings(rest), xmlnsEquals) == LastBy(AllBindings(frames), xmlnsEquals)
        invariant UndeclaredBy(AllBindings(rest), xmlnsEquals)
        decreases i
      {
        ghost var b := ReadBinding(stack, i, rest);
        rest := DropBinding(rest);
        LastByPush(AllBindings(rest), b, xmlnsEquals);
        var decl, ns := stack[i].decl, stack[i - 1];
        if ns == Null {
          return Some(Binding(null, decl));
        }
        if decl == xmlnsEquals {
          return Some(Binding(ns.ns, decl));
        }
        i := i - 2;
      }
      ReadElement(stack, i, rest);
      i := i - 2;
      rest := Below(rest);
    }
    LastByNone(xmlnsEquals);
    found := None;
  }

  lemma LastByNone(decl: Attribute)
    ensures LastBy(AllBindings([]), decl) == None
  {
  }

  lemma LastByPush(bs: seq<Binding>, b: Binding, decl: Attribute)
    ensures LastBy(bs + [b], decl) == if b.decl == decl then Some(b) else LastBy(bs, decl)
    ensures UndeclaredBy(bs + [b], decl) ==> UndeclaredBy(bs, decl) && (b.ns == null ==> b.decl == decl)
  {
    Pushed(bs, b);
    assert forall i :: 0 <= i < |bs| ==> (bs + [b])[i] == bs[i];
  }

  /** genxEndElement: what is left as the innermost declaration of `ns`. */
  method FindDeclaration(stack: seq<Entry>, ns: Namespace, ghost frames: seq<Frame>)
    returns (found: Option<Attribute>)
    requires stack == Flatten(frames)
    ensures found == Innermost(AllBindings(frames), ns)
  {
    hide IsAt, Flatten, AllBindings, Innermost, DropBinding, Below;
    ghost var rest := frames;
    var i := |stack| - 1;
    StartsAtTop(stack, frames);
    while i > 0
      invariant -1 <= i < |stack| && IsAt(stack, i, rest) && (i > 0 <==> rest != [])
      invariant Innermost(AllBindings(rest), ns) == Innermost(AllBindings(frames), ns)
    {
      while stack[i] != Null
        invariant 0 < i < |stack| && IsAt(stack, i, rest) && rest != []
        invariant Innermost(AllBindings(rest), ns) == Innermost(AllBindings(frames), ns)
        decreases i
      {
        ghost var b := ReadBinding(stack, i, rest);
        rest := DropBinding(rest);
        InnermostPush(AllBindings(rest), b, ns);
        var otherDecl, otherNs := stack[i].decl, stack[i - 1];
        if otherNs == ANamespace(ns) {
          return Some(otherDecl);
        }
        i := i - 2;
      }
      ReadElement(stack, i, rest);
      i := i - 2;
      rest := Below(rest);
    }
    InnermostNone(ns);
    found := None;
  }

  lemma InnermostNone(ns: Namespace)
    ensures Innermost(AllBindings([]), ns) == None
  {
  }

  lemma InnermostPush(bs: seq<Binding>, b: Binding, ns: Namespace)
    ensures Innermost(bs + [b], ns) == if b.ns == ns then Some(b.decl) else Innermost(bs, ns)
    ensures Count(bs + [b], ns) == Count(bs, ns) + (if b.ns == ns then 1 else 0)
  {
    Pushed(bs, b);
  }

  /** genxEndElement: the element on top. */
  method PeekElement(stack: seq<Entry>, ghost frames: seq<Frame>) returns (e: Element)
    requires stack == Flatten(frames) && frames != []
    ensures e == Top(frames).element
  {
    hide IsAt, Flatten, AllBindings;
    ghost var rest := frames;
    var i := |stack| - 1;
    StartsAtTop(stack, frames);
    while stack[i] != Null
      invariant 0 < i < |stack| && IsAt(stack, i, rest) && rest != []
      invariant Top(rest).element == Top(frames).element
      decreases i
    {
      ghost var _ := ReadBinding(stack, i, rest);
      i := i - 2;
      rest := DropBinding(rest);
    }
    ReadElement(stack, i, rest);
    i := i - 1;
    e := stack[i].element;
  }
}
