/**
 What a caller asks of the writer, as opposed to how it is written: tags without their
 prefixes and declarations, in the order of the calls.
 */
module Requests {
  import opened Options
  import opened Bytes
  import opened StatusCodes
  import opened Utf8
  import opened Escape
  import opened Tables
  import opened Events
  import opened WriterState
  import opened Scoping

  /** An attribute with its escaped value. */
  type Given = (Key, bytes)

  datatype Action =
    | Open(uri: Option<bytes>, kind: bytes, attributes: set<Given>)
    | Close
    | Text(octets: bytes)
    | Remark(text: bytes)

  // ---------- What was written ----------

  predicate DeclaresNamespace(k: Key) {
    k.uri == [] && IsDeclarationName(k.name)
  }

  /** The attributes of a tag, apart from declarations. */
  function Ordinary(attrs: seq<TagAttribute>): set<Given> {
    set x | x in attrs && !DeclaresNamespace(x.key) :: (x.key, x.value)
  }

  function ActionOf(e: Event): seq<Action> {
    match e
    case StartTag(_, uri, kind, attrs) => [Open(uri, kind, Ordinary(attrs))]
    case EndTag(_, _) => [Close]
    case Chars(octets) => [Text(octets)]
    case Comment(text) => [Remark(text)]
    case LineBreak => []
  }

  function Actions(events: seq<Event>): seq<Action> {
    if events == [] then [] else Actions(events[..|events| - 1]) + ActionOf(events[|events| - 1])
  }

  lemma ActionsPush(events: seq<Event>, e: Event)
    ensures Actions(events + [e]) == Actions(events) + ActionOf(e)
  {
    assert (events + [e])[..|events|] == events;
  }

  // ---------- What was asked for ----------

  /** What is wrong with the value of an attribute, if anything. */
  function ValueStatus(value: Option<CString>): (r: Status)
    ensures r.Success? ==> value.Some?
  {
    match value
    case None => MissingValue
    case Some(text) => TextStatus(text)
  }

  /** Attributes provided for the current element, apart from declarations. */
  ghost function Gathered(aa: seq<Attribute>): map<Attribute, bytes>
    reads aa
  {
    map a | a in aa && a.provided && !IsDeclaration(a) :: a.value
  }

  function Pairs(gathered: map<Attribute, bytes>): set<Given> {
    set a: Attribute | a in gathered :: (KeyOf(WantedOf(a)), gathered[a])
  }

  lemma NothingGathered()
    ensures Pairs(map[]) == {}
  {
  }

  lemma PairsAdd(gathered: map<Attribute, bytes>, a: Attribute, value: bytes)
    requires a !in gathered
    ensures Pairs(gathered[a := value]) == Pairs(gathered) + {(KeyOf(WantedOf(a)), value)}
  {
    hide KeyOf, WantedOf;
    var more := gathered[a := value];
    forall x | x in Pairs(gathered) + {(KeyOf(WantedOf(a)), value)}
      ensures x in Pairs(more)
    {
      if x in Pairs(gathered) {
        var b: Attribute :| b in gathered && (KeyOf(WantedOf(b)), gathered[b]) == x;
        assert more[b] == gathered[b];
      } else {
        assert more[a] == value;
      }
    }
  }

  lemma DeclarationKey(a: Attribute, t: Registry)
    requires RegistryOk(t) && a in t.attributes
    ensures DeclaresNamespace(KeyOf(WantedOf(a))) <==> IsDeclaration(a)
  {
    assert AttributeOk(a, t.namespaces);
  }

  /** A start tag prints what was gathered. */
  lemma PrintedAreGathered(t: Registry)
    requires RegistryOk(t)
    ensures Ordinary(PrintedAttributes(t.attributes)) == Pairs(Gathered(t.attributes))
  {
    hide RegistryOk, KeyOf, WantedOf, IsDeclaration, DeclaresNamespace;
    var attrs, gathered := PrintedAttributes(t.attributes), Gathered(t.attributes);
    forall g | g in Ordinary(attrs)
      ensures g in Pairs(gathered)
    {
      var x :| x in attrs && !DeclaresNamespace(x.key) && (x.key, x.value) == g;
      var a := PrintedFrom(t.attributes, x);
      DeclarationKey(a, t);
    }
    forall g | g in Pairs(gathered)
      ensures g in Ordinary(attrs)
    {
      var a: Attribute :| a in gathered && (KeyOf(WantedOf(a)), gathered[a]) == g;
      DeclarationKey(a, t);
      PrintedMember(t.attributes, a);
    }
  }

  /** What a caller has asked for so far, with the start tag that is still being gathered. */
  ghost function Asked(events: seq<Event>, starting: Element?, gathered: map<Attribute, bytes>): seq<Action> {
    Actions(events) + if starting == null then [] else [Opening(starting, gathered)]
  }

  function UriOf(ns: Namespace?): Option<bytes> {
    if ns == null then None else Some(ns.name)
  }

  function Opening(e: Element, gathered: map<Attribute, bytes>): Action {
    Open(UriOf(e.ns), e.kind, Pairs(gathered))
  }

  /** The same with one more attribute in the start tag that is being gathered. */
  function Furnished(said: seq<Action>, g: Given): seq<Action> {
    if said != [] && said[|said| - 1].Open? then
      var last := said[|said| - 1];
      said[..|said| - 1] + [last.(attributes := last.attributes + {g})]
    else said
  }

  lemma GatheredOneMore(events: seq<Event>, e: Element, gathered: map<Attribute, bytes>, a: Attribute, value: bytes)
    requires a !in gathered
    ensures Asked(events, e, gathered[a := value]) == Furnished(Asked(events, e, gathered), (KeyOf(WantedOf(a)), value))
  {
    hide KeyOf, WantedOf, Actions, Pairs;
    PairsAdd(gathered, a, value);
    assert Asked(events, e, gathered)[..|Actions(events)|] == Actions(events);
  }

  /** Does it give the pre-wired xml namespace another prefix? */
  predicate RebindsXml(uri: bytes, prefix: Option<bytes>) {
    uri == XML_URI && prefix.Some? && prefix.value != XML_PREFIX
  }
}
