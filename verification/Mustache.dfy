/**
 The template parser: text and tags in the order of the template, without the blanks of lines
 that have nothing but block tags, as a tree of sections.
 */
module Mustache {
  import opened Options

  // ---------- Patterns ----------

  predicate IsWhite(c: char) {
    || c in {'\t', '\n', '\r', ' ', '\U{b}', '\U{c}', '\U{a0}', '\U{1680}', '\U{2028}', '\U{2029}', '\U{202f}'}
    || c in {'\U{205f}', '\U{3000}', '\U{feff}'}
    || '\U{2000}' <= c <= '\U{200a}'
  }

  /** The regular expressions of the parser. */
  datatype Pattern = LiteralThenWhite(literal: string) | WhiteThenLiteral(literal: string) | TagType | White

  function WhiteRun(t: string): (n: nat)
    ensures n <= |t|
  {
    if t != [] && IsWhite(t[0]) then 1 + WhiteRun(t[1..]) else 0
  }

  /** The literal behind as much of the first `w` blanks as possible. */
  function Backtrack(literal: string, t: string, w: nat): (n: Option<nat>)
    requires w <= |t|
    ensures n.Some? ==> n.value <= |t|
  {
    if literal <= t[w..] then Some(w + |literal|) else if w == 0 then None else Backtrack(literal, t, w - 1)
  }

  /** The length of the match at the beginning. */
  function Match(p: Pattern, t: string): (n: Option<nat>)
    ensures n.Some? ==> n.value <= |t|
  {
    match p
    case LiteralThenWhite(literal) =>
      if literal <= t then Some(|literal| + WhiteRun(t[|literal|..])) else None
    case WhiteThenLiteral(literal) => Backtrack(literal, t, WhiteRun(t))
    case TagType => if t != [] && t[0] in {'#', '^', '/', '>', '{', '&', '=', '!'} then Some(1) else None
    case White => Some(WhiteRun(t))
  }

  function Matched(p: Pattern, t: string): (n: nat)
    ensures n <= |t|
  {
    match Match(p, t) case None => 0 case Some(n) => n
  }

  /** What is skipped until there is a match. */
  function Until(p: Pattern, t: string): (n: nat)
    ensures n <= |t|
  {
    if t == [] || Match(p, t).Some? then 0 else 1 + Until(p, t[1..])
  }

  class Scanner {
    var tail: string
    var pos: nat
    ghost const template: string

    ghost predicate Valid()
      reads this
    {
      pos <= |template| && tail == template[pos..]
    }

    constructor (template: string)
      ensures Valid() && pos == 0 && tail == this.template == template
    {
      this.template := template;
      tail, pos := template, 0;
    }

    method Scan(p: Pattern) returns (text: string)
      requires Valid()
      modifies this
      ensures Valid() && text == old(tail)[..Matched(p, old(tail))] && tail == old(tail)[Matched(p, old(tail))..]
    {
      text := [];
      var n := Match(p, tail);
      if n.Some? {
        text := tail[..n.value];
        tail := tail[n.value..];
        pos := pos + n.value;
      }
    }

    method Eos() returns (end: bool)
      ensures end <==> tail == ""
    {
      end := tail == "";
    }

    method ScanUntil(p: Pattern) returns (text: string)
      requires Valid()
      modifies this
      ensures Valid() && text == old(tail)[..Until(p, old(tail))] && tail == old(tail)[Until(p, old(tail))..]
    {
      var n := Until(p, tail);
      text := tail[..n];
      tail := tail[n..];
      pos := pos + n;
    }
  }

  // ---------- Tokens in the order of the template ----------

  datatype Kind = Text | Name | Section | Inverted | Close | Partial | Unescaped | Delimiters | Comment

  datatype Token = Token(kind: Kind, value: string, start: nat, end: nat)

  datatype Tags = Tags(open: string, close: string)

  datatype Error = UnclosedTag(at: nat) | UnopenedSection(name: string, at: nat) | UnclosedSection(name: string, at: nat) | InvalidTags

  function KindOf(c: string): (k: Kind)
    ensures k != Text
  {
    if c == "#" then Section
    else if c == "^" then Inverted
    else if c == "/" then Close
    else if c == ">" then Partial
    else if c == "{" || c == "&" then Unescaped
    else if c == "=" then Delimiters
    else if c == "!" then Comment
    else Name
  }

  datatype TagRead = Tag(kind: Kind, value: string, rest: string) | NotClosed(rest: string)

  /** A part of a tag, and what follows. */
  datatype Part = Part(text: string, rest: string)

  /** The type of a tag, and the blanks behind it. */
  function ReadMark(t: string): (p: Part)
    ensures |p.rest| <= |t|
  {
    var k := Matched(TagType, t);
    Part(t[..k], t[k..][Matched(White, t[k..])..])
  }

  function ValueEnd(mark: string, close: string): Pattern {
    WhiteThenLiteral(if mark == "=" then "=" else if mark == "{" then "}" + close else close)
  }

  /** The value of a tag, and what comes between it and the closing. */
  function ReadValue(mark: string, t: string, close: string): (p: Part)
    ensures |p.rest| <= |t|
  {
    var n := Until(ValueEnd(mark, close), t);
    Part(t[..n], if mark == "=" then AfterEnd("=", t[n..], close)
                 else if mark == "{" then AfterEnd("}", t[n..], close)
                 else t[n..])
  }

  /** A tag behind its opening. */
  function ReadTag(t: string, close: string): (r: TagRead)
    ensures |r.rest| <= |t|
  {
    var mark := ReadMark(t);
    var value := ReadValue(mark.text, mark.rest, close);
    var m := Matched(WhiteThenLiteral(close), value.rest);
    if m == 0 then NotClosed(value.rest) else Tag(KindOf(mark.text), value.text, value.rest[m..])
  }

  /** Up to the closing, behind a mark in front of it. */
  function AfterEnd(mark: string, t: string, close: string): (r: string)
    ensures |r| <= |t|
  {
    var t1 := t[Matched(WhiteThenLiteral(mark), t)..];
    t1[Until(WhiteThenLiteral(close), t1)..]
  }

  function Word(t: string): (n: nat)
    ensures n <= |t|
  {
    if t == [] || IsWhite(t[0]) then 0 else 1 + Word(t[1..])
  }

  /** The first two words of a delimiter tag. */
  function NewTags(value: string): Option<Tags> {
    var n := Word(value);
    if n == |value| then None
    else
      var rest := value[n..][WhiteRun(value[n..])..];
      Some(Tags(value[..n], rest[..Word(rest)]))
  }

  /** One token for each character. */
  function Texts(text: string, start: nat): (tokens: seq<Token>)
    ensures |tokens| == |text|
    ensures forall k :: 0 <= k < |text| ==> tokens[k] == Token(Text, [text[k]], start + k, start + k + 1)
  {
    seq(|text|, k requires 0 <= k < |text| => Token(Text, [text[k]], start + k, start + k + 1))
  }

  /** The sections that are open behind a tag. */
  function Opened(open: seq<Token>, t: Token): Result<seq<Token>, Error> {
    if t.kind == Section || t.kind == Inverted then Ok(open + [t])
    else if t.kind == Close then
      if open == [] then Err(UnopenedSection(t.value, t.start))
      else
        var section := open[|open| - 1];
        if section.value != t.value then Err(UnclosedSection(section.value, t.start)) else Ok(open[..|open| - 1])
    else Ok(open)
  }

  function TagsBehind(tags: Tags, t: Token): Option<Tags> {
    if t.kind == Delimiters then NewTags(t.value) else Some(tags)
  }

  function Finished(open: seq<Token>, at: nat): Result<seq<Token>, Error> {
    if open == [] then Ok([]) else Err(UnclosedSection(open[|open| - 1].value, at))
  }

  function Prefixed(tokens: seq<Token>, more: Result<seq<Token>, Error>): Result<seq<Token>, Error> {
    match more
    case Err(e) => Err(e)
    case Ok(rest) => Ok(tokens + rest)
  }

  /** The tokens of what is left of a template of `n` characters. */
  function Tokens(n: nat, tail: string, tags: Tags, open: seq<Token>): Result<seq<Token>, Error>
    requires |tail| <= n
    decreases |tail|, 1
  {
    if tail == [] then Finished(open, n)
    else
      var u := Until(LiteralThenWhite(tags.open), tail);
      Prefixed(Texts(tail[..u], n - |tail|), FromTag(n, tail[u..], tags, open))
  }

  /** The same where a tag starts. */
  function FromTag(n: nat, tail: string, tags: Tags, open: seq<Token>): Result<seq<Token>, Error>
    requires |tail| <= n
    decreases |tail|, 0
  {
    var m := Matched(LiteralThenWhite(tags.open), tail);
    if m == 0 then Finished(open, n - |tail|)
    else
      var r := ReadTag(tail[m..], tags.close);
      if r.NotClosed? then Err(UnclosedTag(n - |r.rest|))
      else
        var t := Token(r.kind, r.value, n - |tail|, n - |r.rest|);
        Prefixed([t], BehindTag(n, r.rest, tags, open, t))
  }

  function BehindTag(n: nat, rest: string, tags: Tags, open: seq<Token>, t: Token): Result<seq<Token>, Error>
    requires |rest| <= n
    decreases |rest|, 2
  {
    match Opened(open, t)
    case Err(e) => Err(e)
    case Ok(sections) =>
      match TagsBehind(tags, t)
      case None => Err(InvalidTags)
      case Some(newTags) => Tokens(n, rest, newTags, sections)
  }

  // ---------- Spans ----------

  /** Every token starts where the one before it ends. */
  predicate Contiguous(tokens: seq<Token>, from: nat) {
    tokens != [] ==> tokens[0].start == from < tokens[0].end && Contiguous(tokens[1..], tokens[0].end)
  }

  function EndOf(tokens: seq<Token>, from: nat): nat {
    if tokens == [] then from else tokens[|tokens| - 1].end
  }

  /** The tags in force behind some tokens. */
  function TagsAfter(tags: Tags, tokens: seq<Token>): Tags
    decreases |tokens|
  {
    if tokens == [] then tags
    else TagsAfter(match TagsBehind(tags, tokens[0]) case None => tags case Some(t) => t, tokens[1..])
  }

  /** Text is what is there. */
  predicate IsSource(template: string, t: Token) {
    t.kind == Text ==> t.start <= t.end <= |template| && t.value == template[t.start..t.end]
  }

  lemma {:induction false} ContiguousConcat(a: seq<Token>, b: seq<Token>, from: nat)
    requires Contiguous(a, from) && Contiguous(b, EndOf(a, from))
    ensures Contiguous(a + b, from) && EndOf(a + b, from) == EndOf(b, EndOf(a, from))
  {
    if a == [] {
      assert a + b == b;
    } else {
      assert (a + b)[1..] == a[1..] + b;
      ContiguousConcat(a[1..], b, a[0].end);
    }
  }

  lemma {:induction false} TagsAfterConcat(tags: Tags, a: seq<Token>, b: seq<Token>)
    ensures TagsAfter(tags, a + b) == TagsAfter(TagsAfter(tags, a), b)
    decreases |a|
  {
    if a == [] {
      assert a + b == b;
    } else {
      assert (a + b)[1..] == a[1..] + b;
      TagsAfterConcat(match TagsBehind(tags, a[0]) case None => tags case Some(t) => t, a[1..], b);
    }
  }

  lemma {:induction false} TextsAreContiguous(text: string, start: nat, tags: Tags)
    ensures Contiguous(Texts(text, start), start) && EndOf(Texts(text, start), start) == start + |text|
    ensures TagsAfter(tags, Texts(text, start)) == tags
  {
    if text != [] {
      TextsAreContiguous(text[1..], start + 1, tags);
      assert Texts(text, start)[1..] == Texts(text[1..], start + 1);
    }
  }

  lemma TextsAreSource(template: string, tail: string, u: nat)
    requires IsSuffix(tail, template) && u <= |tail|
    ensures forall t :: t in Texts(tail[..u], |template| - |tail|) ==> IsSource(template, t)
  {
    var from := |template| - |tail|;
    var texts := Texts(tail[..u], from);
    forall k | 0 <= k < |texts| ensures IsSource(template, texts[k]) {
      assert texts[k].value == [tail[k]] && tail[k] == template[from..][k];
      assert template[from + k..from + k + 1] == [template[from + k]];
    }
  }

  /**
   * What tiling the rest of a template means. Only a caller can give an empty opening tag; behind that,
   * reading ends at the first character between tags that is no blank.
   */
  predicate Tiles(template: string, tail: string, tags: Tags, tokens: seq<Token>)
    requires |tail| <= |template|
  {
    var from := |template| - |tail|;
    var end := EndOf(tokens, from);
    && Contiguous(tokens, from)
    && (forall t :: t in tokens ==> IsSource(template, t))
    && (tags.open != "" ==> end == |template|)
    && end <= |template|
    && (end < |template| ==> TagsAfter(tags, tokens).open == "" && !IsWhite(template[end]))
  }

  /** The tokens tile the template, to its end for every opening tag that is not empty. */
  lemma {:induction false} TokensTile(template: string, tail: string, tags: Tags, open: seq<Token>)
    requires IsSuffix(tail, template) && Tokens(|template|, tail, tags, open).Ok?
    ensures Tiles(template, tail, tags, Tokens(|template|, tail, tags, open).value)
    decreases |tail|, 1
  {
    hide Texts, FromTag, Match, Until, IsSource, Contiguous, TagsAfter, IsWhite;
    if tail == [] {
      NothingTiles(template, tail, tags);
    } else {
      var n := |template|;
      var u := Until(LiteralThenWhite(tags.open), tail);
      var text, t1 := Texts(tail[..u], n - |tail|), tail[u..];
      TextsAreContiguous(tail[..u], n - |tail|, tags);
      TextsAreSource(template, tail, u);
      UntilFound(LiteralThenWhite(tags.open), tail);
      SuffixOfSuffix(t1, tail, template);
      FromTagTiles(template, t1, tags, open);
      var more := FromTag(n, t1, tags, open).value;
      ContiguousConcat(text, more, n - |tail|);
      TagsAfterConcat(tags, text, more);
    }
  }

  lemma {:induction false} FromTagTiles(template: string, tail: string, tags: Tags, open: seq<Token>)
    requires IsSuffix(tail, template) && FromTag(|template|, tail, tags, open).Ok?
    requires tail == [] || Match(LiteralThenWhite(tags.open), tail).Some?
    ensures Tiles(template, tail, tags, FromTag(|template|, tail, tags, open).value)
    decreases |tail|, 0
  {
    hide ReadTag, Opened, TagsBehind, Tokens, Match, Matched, IsWhite, Tiles;
    var n := |template|;
    var m := Matched(LiteralThenWhite(tags.open), tail);
    if m == 0 {
      OpeningMatches(tags.open, tail);
      NothingTiles(template, tail, tags);
    } else {
      var r := ReadTag(tail[m..], tags.close);
      var t := Token(r.kind, r.value, n - |tail|, n - |r.rest|);
      ReadTagIsTail(tail[m..], tags.close);
      OpeningIsNotEmpty(tail[m..], tags, t);
      DropIsSuffix(tail, m);
      SuffixOfSuffix(tail[m..], tail, template);
      SuffixOfSuffix(r.rest, tail[m..], template);
      TokensTile(template, r.rest, TagsBehind(tags, t).value, Opened(open, t).value);
      OneTag(template, tail, r.rest, t, tags, Tokens(n, r.rest, TagsBehind(tags, t).value, Opened(open, t).value).value);
    }
  }

  lemma NothingTiles(template: string, tail: string, tags: Tags)
    requires IsSuffix(tail, template) && (tail == [] || (tags.open == "" && !IsWhite(tail[0])))
    ensures Tiles(template, tail, tags, [])
  {
    hide IsWhite;
  }

  predicate IsSuffix(s: string, t: string) {
    |s| <= |t| && t[|t| - |s|..] == s
  }

  lemma SuffixOfSuffix(s: string, t: string, u: string)
    requires IsSuffix(s, t) && IsSuffix(t, u)
    ensures IsSuffix(s, u)
  {
    assert u[|u| - |s|..] == t[|t| - |s|..];
  }

  lemma DropIsSuffix(t: string, k: nat)
    requires k <= |t|
    ensures IsSuffix(t[k..], t)
  {
  }

  lemma OneTag(template: string, tail: string, rest: string, t: Token, tags: Tags, more: seq<Token>)
    requires |rest| < |tail| <= |template| && t.kind != Text
    requires t.start == |template| - |tail| && t.end == |template| - |rest|
    requires TagsBehind(tags, t).Some? && Tiles(template, rest, TagsBehind(tags, t).value, more)
    requires tags.open != "" ==> TagsBehind(tags, t).value.open != ""
    ensures Tiles(template, tail, tags, [t] + more)
  {
    hide TagsBehind, IsWhite;
    assert ([t] + more)[1..] == more;
  }

  lemma {:induction false} UntilFound(p: Pattern, t: string)
    ensures Until(p, t) < |t| ==> Match(p, t[Until(p, t)..]).Some?
  {
    hide Match;
    if t != [] && Match(p, t).None? {
      UntilFound(p, t[1..]);
      assert t[1..][Until(p, t[1..])..] == t[Until(p, t)..];
    } else {
      assert t[0..] == t;
    }
  }

  lemma OpeningMatches(open: string, t: string)
    requires t != [] ==> Match(LiteralThenWhite(open), t).Some?
    requires Matched(LiteralThenWhite(open), t) == 0
    ensures t == [] || (open == "" && !IsWhite(t[0]))
  {
  }

  lemma AfterWhiteRun(t: string)
    ensures WhiteRun(t) < |t| ==> !IsWhite(t[WhiteRun(t)])
  {
  }

  lemma ValueStart(t: string, close: string)
    requires ReadTag(t, close).Tag?
    ensures ReadTag(t, close).value == "" || !IsWhite(ReadTag(t, close).value[0])
  {
    hide IsWhite, Until, AfterEnd, WhiteRun;
    var k := Matched(TagType, t);
    AfterWhiteRun(t[k..]);
    assert ReadMark(t).rest == t[k..][WhiteRun(t[k..])..];
    hide Matched, KindOf;
  }

  lemma NewOpening(value: string)
    requires NewTags(value).Some? && !IsWhite(value[0])
    ensures NewTags(value).value.open != ""
  {
    hide IsWhite, WhiteRun;
  }

  /** No delimiter tag sets an empty opening: its value starts with a word, or is refused. */
  lemma OpeningIsNotEmpty(t: string, tags: Tags, token: Token)
    requires ReadTag(t, tags.close).Tag?
    requires token.kind == ReadTag(t, tags.close).kind && token.value == ReadTag(t, tags.close).value
    ensures token.kind == Delimiters && TagsBehind(tags, token).Some? ==> TagsBehind(tags, token).value.open != ""
    ensures tags.open != "" && TagsBehind(tags, token).Some? ==> TagsBehind(tags, token).value.open != ""
  {
    ValueStart(t, tags.close);
    NothingNew();
    hide ReadTag, NewTags, IsWhite;
    if token.kind == Delimiters && NewTags(token.value).Some? {
      NewOpening(token.value);
    }
  }

  lemma NothingNew()
    ensures NewTags("") == None
  {
  }

  lemma EmptyMatches(t: string)
    ensures Matched(LiteralThenWhite(""), t) == WhiteRun(t) && Until(LiteralThenWhite(""), t) == 0
    ensures WhiteRun(t) > 0 <==> t != "" && IsWhite(t[0])
  {
    assert t[0..] == t;
  }

  /** An empty opening tag of a caller: nothing is read, or blanks open a tag. */
  lemma EmptyOpening(n: nat, tail: string, tags: Tags, open: seq<Token>)
    requires |tail| <= n && tags.open == "" && tail != "" && Tokens(n, tail, tags, open).Ok?
    ensures var tokens := Tokens(n, tail, tags, open).value;
            && (tokens == [] <==> !IsWhite(tail[0]))
            && (IsWhite(tail[0]) ==> tokens[0].kind != Text && tokens[0].start == n - |tail|)
  {
    EmptyMatches(tail);
    hide IsWhite, Opened, TagsBehind, ReadTag, Until, Matched, BehindTag;
    assert tail[..0] == "" && tail[0..] == tail;
    assert Tokens(n, tail, tags, open) == Prefixed([], FromTag(n, tail, tags, open));
    NothingRead(FromTag(n, tail, tags, open));
    if IsWhite(tail[0]) {
      ReadTagIsTail(tail[WhiteRun(tail)..], tags.close);
    }
  }

  /** Nothing of this template is read. */
  lemma EmptyOpeningExample()
    ensures Tokens(1, "a", Tags("", "}}"), []) == Ok([]) && EndOf([], 0) < 1
  {
    var t, tags := "a", Tags("", "}}");
    EmptyMatches(t);
    assert t[0] == 'a' && !IsWhite('a');
    hide Until, Matched, WhiteRun, IsWhite;
    assert t[..0] == "" && t[0..] == t;
    assert FromTag(1, t, tags, []) == Ok([]);
    NothingRead(FromTag(1, t, tags, []));
  }

  lemma ReadTagIsTail(t: string, close: string)
    ensures var r := ReadTag(t, close);
            IsSuffix(r.rest, t) && (r.Tag? ==> r.kind != Text)
  {
    hide Matched, ReadMark, ReadValue, IsSuffix;
    var mark := ReadMark(t);
    var value := ReadValue(mark.text, mark.rest, close);
    var m := Matched(WhiteThenLiteral(close), value.rest);
    ReadMarkIsTail(t);
    ReadValueIsTail(mark.text, mark.rest, close);
    SuffixOfSuffix(value.rest, mark.rest, t);
    DropIsSuffix(value.rest, m);
    SuffixOfSuffix(value.rest[m..], value.rest, t);
  }

  lemma ReadMarkIsTail(t: string)
    ensures IsSuffix(ReadMark(t).rest, t)
  {
    hide Matched;
    var k := Matched(TagType, t);
    DropIsSuffix(t, k);
    DropIsSuffix(t[k..], Matched(White, t[k..]));
    SuffixOfSuffix(ReadMark(t).rest, t[k..], t);
  }

  lemma ReadValueIsTail(mark: string, t: string, close: string)
    ensures IsSuffix(ReadValue(mark, t, close).rest, t)
  {
    hide Until, AfterEnd, IsSuffix;
    var n := Until(ValueEnd(mark, close), t);
    DropIsSuffix(t, n);
    AfterEndIsTail("=", t[n..], close);
    AfterEndIsTail("}", t[n..], close);
    SuffixOfSuffix(AfterEnd("=", t[n..], close), t[n..], t);
    SuffixOfSuffix(AfterEnd("}", t[n..], close), t[n..], t);
  }

  lemma AfterEndIsTail(mark: string, t: string, close: string)
    ensures IsSuffix(AfterEnd(mark, t, close), t)
  {
    hide Matched, Until;
    var m := Matched(WhiteThenLiteral(mark), t);
    DropIsSuffix(t, m);
    var u := Until(WhiteThenLiteral(close), t[m..]);
    DropIsSuffix(t[m..], u);
    SuffixOfSuffix(t[m..][u..], t[m..], t);
  }

  // ---------- Blanks of lines that have nothing but block tags ----------

  predicate IsBlankText(t: Token) {
    t.kind == Text && t.value != [] && IsWhite(t.value[0])
  }

  predicate IsNewline(t: Token) {
    t.kind == Text && t.value == ['\n']
  }

  predicate IsContent(t: Token) {
    (t.kind == Text && !IsBlankText(t)) || t.kind == Name || t.kind == Unescaped
  }

  predicate HasTag(line: seq<Token>) {
    exists k :: 0 <= k < |line| && line[k].kind != Text
  }

  predicate HasContent(line: seq<Token>) {
    exists k :: 0 <= k < |line| && IsContent(line[k])
  }

  function StripLine(line: seq<Token>): (slots: seq<Option<Token>>)
    ensures |slots| == |line|
    ensures forall k :: 0 <= k < |line| ==>
              slots[k] == if HasTag(line) && !HasContent(line) && IsBlankText(line[k]) then None else Some(line[k])
  {
    var strip := HasTag(line) && !HasContent(line);
    seq(|line|, k requires 0 <= k < |line| => if strip && IsBlankText(line[k]) then None else Some(line[k]))
  }

  /** The length of the first line with its end. */
  function LineLength(raw: seq<Token>): (n: nat)
    ensures n <= |raw| && (raw != [] ==> n > 0)
    ensures forall k :: 0 <= k < n - 1 ==> !IsNewline(raw[k])
    ensures n == |raw| || (n > 0 && IsNewline(raw[n - 1]))
  {
    if raw == [] then 0 else if IsNewline(raw[0]) then 1 else 1 + LineLength(raw[1..])
  }

  function Stripped(raw: seq<Token>): (slots: seq<Option<Token>>)
    ensures |slots| == |raw|
  {
    if raw == [] then [] else StripLine(raw[..LineLength(raw)]) + Stripped(raw[LineLength(raw)..])
  }

  predicate OneLine(line: seq<Token>) {
    forall k :: 0 <= k < |line| - 1 ==> !IsNewline(line[k])
  }

  predicate Complete(raw: seq<Token>) {
    raw == [] || IsNewline(raw[|raw| - 1])
  }

  lemma LineLengthIs(raw: seq<Token>, n: nat)
    requires 0 < n <= |raw| && OneLine(raw[..n]) && (n == |raw| || IsNewline(raw[n - 1]))
    ensures LineLength(raw) == n
  {
    hide IsNewline;
    forall k | 0 <= k < n - 1 ensures !IsNewline(raw[k]) {
      assert raw[k] == raw[..n][k];
    }
  }

  lemma StrippedOneLine(line: seq<Token>)
    requires OneLine(line)
    ensures Stripped(line) == StripLine(line)
  {
    if line != [] {
      assert line[..|line|] == line;
      LineLengthIs(line, |line|);
      assert line[|line|..] == [];
    }
  }

  /** Lines are stripped one by one. */
  lemma {:induction false} StrippedConcat(raw: seq<Token>, more: seq<Token>)
    requires Complete(raw)
    ensures Stripped(raw + more) == Stripped(raw) + Stripped(more)
    decreases |raw|
  {
    hide IsNewline, StripLine, OneLine, Stripped;
    if raw == [] {
      NothingStripped();
      assert raw + more == more;
    } else {
      var n := LineLength(raw);
      FirstOfTwo(raw, more);
      assert (raw + more)[n..] == raw[n..] + more;
      StrippedUnfolds(raw);
      StrippedUnfolds(raw + more);
      StrippedConcat(raw[n..], more);
    }
  }

  lemma NothingStripped()
    ensures Stripped([]) == []
  {
  }

  lemma StrippedUnfolds(raw: seq<Token>)
    requires raw != []
    ensures Stripped(raw) == StripLine(raw[..LineLength(raw)]) + Stripped(raw[LineLength(raw)..])
  {
    hide StripLine;
  }

  lemma FirstOfTwo(raw: seq<Token>, more: seq<Token>)
    requires Complete(raw) && raw != []
    ensures LineLength(raw + more) == LineLength(raw)
    ensures (raw + more)[..LineLength(raw)] == raw[..LineLength(raw)]
    ensures Complete(raw[LineLength(raw)..])
  {
    hide IsNewline;
    var n := LineLength(raw);
    assert (raw + more)[..n] == raw[..n];
    LineLengthIs(raw + more, n);
  }

  /** The line that a token is in. */
  predicate InLine(raw: seq<Token>, from: nat, to: nat, k: nat) {
    && from <= k < to <= |raw| && Complete(raw[..from]) && OneLine(raw[from..to])
    && (to == |raw| || IsNewline(raw[to - 1]))
  }

  /** Exactly the blanks of a line with a tag and without contents go. */
  lemma {:induction false} BlanksAreStripped(raw: seq<Token>, from: nat, to: nat, k: nat)
    requires InLine(raw, from, to, k)
    ensures var line := raw[from..to];
            Stripped(raw)[k] ==
            if HasTag(line) && !HasContent(line) && IsBlankText(raw[k]) then None else Some(raw[k])
  {
    hide HasTag, HasContent, IsNewline, IsBlankText, Stripped, StripLine, OneLine, Complete;
    var rest := raw[from..];
    assert raw == raw[..from] + rest;
    StrippedConcat(raw[..from], rest);
    SliceOfRest(raw, from, to);
    FirstLine(rest, to - from, k - from);
  }

  lemma SliceOfRest(raw: seq<Token>, from: nat, to: nat)
    requires from < to <= |raw|
    ensures raw[from..][..to - from] == raw[from..to]
    ensures |raw[from..]| == |raw| - from && raw[from..][to - from - 1] == raw[to - 1]
    ensures forall k :: from <= k < to ==> raw[from..][k - from] == raw[k]
  {
  }

  lemma FirstLine(raw: seq<Token>, n: nat, k: nat)
    requires k < n <= |raw| && OneLine(raw[..n]) && (n == |raw| || IsNewline(raw[n - 1]))
    ensures var line := raw[..n];
            Stripped(raw)[k] ==
            if HasTag(line) && !HasContent(line) && IsBlankText(raw[k]) then None else Some(raw[k])
  {
    hide HasTag, HasContent, IsNewline, IsBlankText, OneLine;
    LineLengthIs(raw, n);
    assert raw[..n][k] == raw[k];
    assert Stripped(raw)[k] == StripLine(raw[..n])[k];
  }

  // ---------- Joining text ----------

  function Merged(done: seq<Token>, t: Token): seq<Token> {
    if done != [] && done[|done| - 1].kind == Text && t.kind == Text then
      var last := done[|done| - 1];
      done[..|done| - 1] + [Token(Text, last.value + t.value, last.start, t.end)]
    else done + [t]
  }

  /** What remains, with consecutive text as one token. */
  function Squashed(done: seq<Token>, slots: seq<Option<Token>>): seq<Token>
    decreases |slots|
  {
    if slots == [] then done
    else Squashed(match slots[0] case None => done case Some(t) => Merged(done, t), slots[1..])
  }

  lemma {:induction false} SquashedConcat(done: seq<Token>, a: seq<Option<Token>>, b: seq<Option<Token>>)
    ensures Squashed(done, a + b) == Squashed(Squashed(done, a), b)
    decreases |a|
  {
    hide Merged;
    if a == [] {
      assert a + b == b;
    } else {
      assert (a + b)[1..] == a[1..] + b;
      SquashedConcat(match a[0] case None => done case Some(t) => Merged(done, t), a[1..], b);
    }
  }

  /** Tokens up to `to`, in order, whose text is from the template. */
  ghost predicate FromSource(template: string, done: seq<Token>, to: nat) {
    && (forall t :: t in done ==> IsSource(template, t) && t.start < t.end <= to)
    && (forall k, m :: 0 <= k < m < |done| ==> done[k].end <= done[m].start)
  }

  /** Text at the end ends at `to`, so that more can be joined. */
  ghost predicate Joinable(done: seq<Token>, to: nat) {
    done != [] && done[|done| - 1].kind == Text ==> done[|done| - 1].end == to
  }

  lemma MergedIsSource(template: string, done: seq<Token>, t: Token)
    requires FromSource(template, done, t.start) && IsSource(template, t) && t.start < t.end
    requires t.kind == Text ==> Joinable(done, t.start)
    ensures FromSource(template, Merged(done, t), t.end) && Joinable(Merged(done, t), t.end)
    ensures Merged(done, t) != [] && Merged(done, t)[|Merged(done, t)| - 1].kind == t.kind
  {
    if done != [] && done[|done| - 1].kind == Text && t.kind == Text {
      var last := done[|done| - 1];
      assert last in done;
      assert template[last.start..t.end] == template[last.start..last.end] + template[t.start..t.end];
    }
  }

  /** A line that is kept. */
  lemma {:induction false} KeptIsSource(template: string, done: seq<Token>, line: seq<Token>, slots: seq<Option<Token>>, from: nat)
    requires FromSource(template, done, from) && Joinable(done, from) && Contiguous(line, from)
    requires forall t :: t in line ==> IsSource(template, t)
    requires |slots| == |line| && forall k :: 0 <= k < |slots| ==> slots[k] == Some(line[k])
    ensures FromSource(template, Squashed(done, slots), EndOf(line, from))
    ensures Joinable(Squashed(done, slots), EndOf(line, from))
    decreases |line|
  {
    hide FromSource, Joinable, Merged, IsSource;
    if line != [] {
      MergedIsSource(template, done, line[0]);
      KeptIsSource(template, Merged(done, line[0]), line[1..], slots[1..], line[0].end);
    }
  }

  lemma FromSourceLater(template: string, done: seq<Token>, from: nat, to: nat)
    requires FromSource(template, done, from) && from <= to
    ensures FromSource(template, done, to)
  {
  }

  /** A line that is stripped of all its text. */
  lemma {:induction false} TagsAreSource(template: string, done: seq<Token>, line: seq<Token>, slots: seq<Option<Token>>, from: nat)
    requires FromSource(template, done, from) && Contiguous(line, from)
    requires forall t :: t in line ==> IsSource(template, t)
    requires |slots| == |line|
    requires forall k :: 0 <= k < |slots| ==> slots[k] == if line[k].kind == Text then None else Some(line[k])
    ensures FromSource(template, Squashed(done, slots), EndOf(line, from))
    ensures (done != [] && done[|done| - 1].kind != Text) || HasTag(line) ==>
              Squashed(done, slots) != [] && Squashed(done, slots)[|Squashed(done, slots)| - 1].kind != Text
    decreases |line|
  {
    hide FromSource, Merged, IsSource;
    if line != [] {
      var t := line[0];
      FromSourceLater(template, done, from, t.end);
      var next := if t.kind == Text then done else Merged(done, t);
      if t.kind != Text {
        MergedIsSource(template, done, t);
      } else if HasTag(line) {
        var k :| 0 <= k < |line| && line[k].kind != Text;
        assert line[1..][k - 1] == line[k];
      }
      TagsAreSource(template, next, line[1..], slots[1..], t.end);
    }
  }

  lemma LineIsSource(template: string, done: seq<Token>, line: seq<Token>, from: nat)
    requires FromSource(template, done, from) && Joinable(done, from) && Contiguous(line, from)
    requires forall t :: t in line ==> IsSource(template, t)
    ensures FromSource(template, Squashed(done, StripLine(line)), EndOf(line, from))
    ensures Joinable(Squashed(done, StripLine(line)), EndOf(line, from))
  {
    hide FromSource, Squashed, IsSource, Contiguous;
    if HasTag(line) && !HasContent(line) {
      forall k | 0 <= k < |line| ensures IsBlankText(line[k]) <==> line[k].kind == Text {
        assert !IsContent(line[k]);
      }
      hide HasTag, HasContent, IsBlankText;
      TagsAreSource(template, done, line, StripLine(line), from);
    } else {
      KeptIsSource(template, done, line, StripLine(line), from);
    }
  }

  lemma {:induction false} ContiguousParts(tokens: seq<Token>, k: nat, from: nat)
    requires Contiguous(tokens, from) && k <= |tokens|
    ensures Contiguous(tokens[..k], from) && Contiguous(tokens[k..], EndOf(tokens[..k], from))
    ensures EndOf(tokens[k..], EndOf(tokens[..k], from)) == EndOf(tokens, from)
    decreases k
  {
    if k > 0 {
      ContiguousParts(tokens[1..], k - 1, tokens[0].end);
      assert tokens[..k][1..] == tokens[1..][..k - 1] && tokens[1..][k - 1..] == tokens[k..];
    } else {
      assert tokens[0..] == tokens;
    }
  }

  /** Wherever blanks are stripped, text that is joined has been together in the template. */
  lemma {:induction false} TextIsSource(template: string, done: seq<Token>, raw: seq<Token>, from: nat)
    requires FromSource(template, done, from) && Joinable(done, from) && Contiguous(raw, from)
    requires forall t :: t in raw ==> IsSource(template, t)
    ensures FromSource(template, Squashed(done, Stripped(raw)), EndOf(raw, from))
    decreases |raw|
  {
    hide FromSource, Joinable, Merged, IsSource, Contiguous, StripLine;
    if raw != [] {
      var n := LineLength(raw);
      var line, rest := raw[..n], raw[n..];
      hide Squashed;
      ContiguousParts(raw, n, from);
      LineIsSource(template, done, line, from);
      SquashedConcat(done, StripLine(line), Stripped(rest));
      TextIsSource(template, Squashed(done, StripLine(line)), rest, EndOf(line, from));
    }
  }

  /** Text is never next to text. */
  predicate Alternates(tokens: seq<Token>) {
    forall k :: 0 < k < |tokens| && tokens[k].kind == Text ==> tokens[k - 1].kind != Text
  }

  lemma MergedAlternates(done: seq<Token>, t: Token)
    requires Alternates(done)
    ensures Alternates(Merged(done, t))
  {
  }

  lemma {:induction false} SquashedAlternates(done: seq<Token>, slots: seq<Option<Token>>)
    requires Alternates(done)
    ensures Alternates(Squashed(done, slots))
    decreases |slots|
  {
    hide Merged, Alternates;
    if slots != [] {
      if slots[0].Some? {
        MergedAlternates(done, slots[0].value);
      }
      SquashedAlternates(match slots[0] case None => done case Some(t) => Merged(done, t), slots[1..]);
    }
  }

  // ---------- Sections ----------

  function OpenAfter(open: seq<Token>, tokens: seq<Token>): Result<seq<Token>, Error>
    decreases |tokens|
  {
    if tokens == [] then Ok(open)
    else
      match Opened(open, tokens[0])
      case Err(e) => Err(e)
      case Ok(sections) => OpenAfter(sections, tokens[1..])
  }

  lemma {:induction false} OpenAfterConcat(open: seq<Token>, a: seq<Token>, b: seq<Token>)
    ensures OpenAfter(open, a + b) ==
            match OpenAfter(open, a) case Err(e) => Err(e) case Ok(sections) => OpenAfter(sections, b)
    decreases |a|
  {
    hide Opened;
    if a == [] {
      assert a + b == b;
    } else {
      assert (a + b)[1..] == a[1..] + b;
      if Opened(open, a[0]).Ok? {
        OpenAfterConcat(Opened(open, a[0]).value, a[1..], b);
      }
    }
  }

  lemma {:induction false} TextOpensNothing(open: seq<Token>, tokens: seq<Token>)
    requires forall k :: 0 <= k < |tokens| ==> tokens[k].kind == Text
    ensures OpenAfter(open, tokens) == Ok(open)
    decreases |tokens|
  {
    if tokens != [] {
      TextOpensNothing(open, tokens[1..]);
    }
  }

  /** On what has been accepted, every section is closed. */
  lemma {:induction false} TokensNest(n: nat, tail: string, tags: Tags, open: seq<Token>)
    requires |tail| <= n && Tokens(n, tail, tags, open).Ok?
    ensures OpenAfter(open, Tokens(n, tail, tags, open).value) == Ok([])
    decreases |tail|, 1
  {
    hide Until, FromTag;
    if tail != [] {
      var u := Until(LiteralThenWhite(tags.open), tail);
      var text, t1 := Texts(tail[..u], n - |tail|), tail[u..];
      TextOpensNothing(open, text);
      FromTagNest(n, t1, tags, open);
      OpenAfterConcat(open, text, FromTag(n, t1, tags, open).value);
    }
  }

  lemma {:induction false} FromTagNest(n: nat, tail: string, tags: Tags, open: seq<Token>)
    requires |tail| <= n && FromTag(n, tail, tags, open).Ok?
    ensures OpenAfter(open, FromTag(n, tail, tags, open).value) == Ok([])
    decreases |tail|, 0
  {
    hide Opened, ReadTag, TagsBehind, Matched, Tokens;
    var m := Matched(LiteralThenWhite(tags.open), tail);
    if m != 0 {
      var r := ReadTag(tail[m..], tags.close);
      var t := Token(r.kind, r.value, n - |tail|, n - |r.rest|);
      var sections, newTags := Opened(open, t).value, TagsBehind(tags, t).value;
      TokensNest(n, r.rest, newTags, sections);
      var more := Tokens(n, r.rest, newTags, sections).value;
      assert ([t] + more)[1..] == more;
    }
  }

  function TagsOnly(tokens: seq<Token>): seq<Token> {
    if tokens == [] then [] else (if tokens[0].kind == Text then [] else [tokens[0]]) + TagsOnly(tokens[1..])
  }

  lemma {:induction false} TagsOnlyConcat(a: seq<Token>, b: seq<Token>)
    ensures TagsOnly(a + b) == TagsOnly(a) + TagsOnly(b)
  {
    if a == [] {
      assert a + b == b;
    } else {
      assert (a + b)[1..] == a[1..] + b;
      TagsOnlyConcat(a[1..], b);
    }
  }

  lemma {:induction false} OnlyTagsOpen(open: seq<Token>, tokens: seq<Token>)
    ensures OpenAfter(open, tokens) == OpenAfter(open, TagsOnly(tokens))
    decreases |tokens|
  {
    if tokens != [] {
      var t := tokens[0];
      if t.kind == Text {
        OnlyTagsOpen(open, tokens[1..]);
        assert [] + TagsOnly(tokens[1..]) == TagsOnly(tokens[1..]);
      } else {
        assert ([t] + TagsOnly(tokens[1..]))[1..] == TagsOnly(tokens[1..]);
        if Opened(open, t).Ok? {
          OnlyTagsOpen(Opened(open, t).value, tokens[1..]);
        }
      }
    }
  }

  lemma MergedTags(done: seq<Token>, t: Token)
    ensures TagsOnly(Merged(done, t)) == TagsOnly(done) + if t.kind == Text then [] else [t]
  {
    if done != [] && done[|done| - 1].kind == Text && t.kind == Text {
      var last := done[|done| - 1];
      assert done == done[..|done| - 1] + [last];
      TagsOnlyConcat(done[..|done| - 1], [last]);
      TagsOnlyConcat(done[..|done| - 1], [Token(Text, last.value + t.value, last.start, t.end)]);
    } else {
      TagsOnlyConcat(done, [t]);
    }
  }

  lemma {:induction false} SquashedTags(done: seq<Token>, raw: seq<Token>, slots: seq<Option<Token>>)
    requires |slots| == |raw|
    requires forall k :: 0 <= k < |slots| ==> slots[k] == Some(raw[k]) || (slots[k].None? && raw[k].kind == Text)
    ensures TagsOnly(Squashed(done, slots)) == TagsOnly(done) + TagsOnly(raw)
    decreases |slots|
  {
    hide Merged;
    if slots == [] {
      assert TagsOnly(done) + [] == TagsOnly(done);
    } else {
      var next := match slots[0] case None => done case Some(t) => Merged(done, t);
      SquashedTags(next, raw[1..], slots[1..]);
      MergedTags(done, raw[0]);
    }
  }

  lemma {:induction false} OnlyTextIsStripped(raw: seq<Token>)
    ensures forall k :: 0 <= k < |raw| ==>
              Stripped(raw)[k] == Some(raw[k]) || (Stripped(raw)[k].None? && IsBlankText(raw[k]))
    decreases |raw|
  {
    hide HasTag, HasContent;
    if raw != [] {
      OnlyTextIsStripped(raw[LineLength(raw)..]);
    }
  }

  /** No tag is lost, so sections are still closed. */
  lemma SquashedNest(raw: seq<Token>)
    ensures TagsOnly(Squashed([], Stripped(raw))) == TagsOnly(raw)
    ensures OpenAfter([], Squashed([], Stripped(raw))) == OpenAfter([], raw)
  {
    hide OpenAfter, Squashed, Stripped;
    OnlyTextIsStripped(raw);
    SquashedTags([], raw, Stripped(raw));
    OnlyTagsOpen([], raw);
    OnlyTagsOpen([], Squashed([], Stripped(raw)));
  }

  // ---------- Nesting ----------

  predicate Opens(t: Token) {
    t.kind == Section || t.kind == Inverted
  }

  /** The sections that are open before token `i`. */
  function Stack(tokens: seq<Token>, i: nat): (open: seq<nat>)
    requires i <= |tokens|
    ensures forall k :: 0 <= k < |open| ==> open[k] < i && Opens(tokens[open[k]])
    ensures forall k, m :: 0 <= k < m < |open| ==> open[k] < open[m]
  {
    if i == 0 then []
    else
      var open := Stack(tokens, i - 1);
      if Opens(tokens[i - 1]) then open + [i - 1]
      else if tokens[i - 1].kind == Close && open != [] then open[..|open| - 1]
      else open
  }

  function Parent(tokens: seq<Token>, i: nat): (p: Option<nat>)
    requires i <= |tokens|
    ensures p.Some? ==> p.value < i && Opens(tokens[p.value])
  {
    var open := Stack(tokens, i);
    if open == [] then None else Some(open[|open| - 1])
  }

  /** What is directly in a section before token `i`, in order. */
  function Children(tokens: seq<Token>, parent: Option<nat>, i: nat): (c: seq<nat>)
    requires i <= |tokens|
    ensures forall k :: 0 <= k < |c| ==> c[k] < i && tokens[c[k]].kind != Close && Parent(tokens, c[k]) == parent
    ensures forall k, m :: 0 <= k < m < |c| ==> c[k] < c[m]
    ensures forall j :: 0 <= j < i && tokens[j].kind != Close && Parent(tokens, j) == parent ==> j in c
  {
    if i == 0 then []
    else
      Children(tokens, parent, i - 1) +
      if tokens[i - 1].kind != Close && Parent(tokens, i - 1) == parent then [i - 1] else []
  }

  predicate Closes(tokens: seq<Token>, j: nat, k: nat) {
    j < |tokens| && tokens[j].kind == Close && Parent(tokens, j) == Some(k)
  }

  function Picked(tokens: seq<Token>, indices: seq<nat>): (t: seq<Token>)
    requires forall k :: 0 <= k < |indices| ==> indices[k] < |tokens|
    ensures |t| == |indices|
    ensures forall k :: 0 <= k < |t| ==> t[k] == tokens[indices[k]]
  {
    seq(|indices|, k requires 0 <= k < |indices| => tokens[indices[k]])
  }

  lemma PickedStep(tokens: seq<Token>, i: nat)
    requires i < |tokens| && Opened(Picked(tokens, Stack(tokens, i)), tokens[i]).Ok?
    ensures Opened(Picked(tokens, Stack(tokens, i)), tokens[i]) == Ok(Picked(tokens, Stack(tokens, i + 1)))
    ensures tokens[i].kind == Close ==>
              Stack(tokens, i) != [] && tokens[Parent(tokens, i).value].value == tokens[i].value
  {
    var open := Stack(tokens, i);
    var picked := Picked(tokens, open);
    if Opens(tokens[i]) {
      assert Stack(tokens, i + 1) == open + [i];
      hide Stack;
      assert Picked(tokens, open + [i]) == picked + [tokens[i]];
    } else if tokens[i].kind == Close {
      assert Stack(tokens, i + 1) == open[..|open| - 1];
      hide Stack;
      assert Picked(tokens, open[..|open| - 1]) == picked[..|open| - 1];
    }
  }

  /** The sections that the parser has checked are these. */
  lemma {:induction false} StackIsOpen(tokens: seq<Token>, i: nat)
    requires i <= |tokens| && OpenAfter([], tokens).Ok?
    ensures OpenAfter([], tokens[..i]) == Ok(Picked(tokens, Stack(tokens, i)))
    ensures i < |tokens| && tokens[i].kind == Close ==>
              Stack(tokens, i) != [] && tokens[Parent(tokens, i).value].value == tokens[i].value
  {
    hide OpenAfter, Opened, Parent;
    if i > 0 {
      StackIsOpen(tokens, i - 1);
      OneMore(tokens, i - 1);
      PickedStep(tokens, i - 1);
    } else {
      NothingOpen(tokens);
    }
    if i < |tokens| {
      OneMore(tokens, i);
      PickedStep(tokens, i);
    }
  }

  lemma NothingOpen(tokens: seq<Token>)
    ensures OpenAfter([], tokens[..0]) == Ok([])
  {
  }

  lemma OneMore(tokens: seq<Token>, i: nat)
    requires i < |tokens| && OpenAfter([], tokens).Ok?
    ensures OpenAfter([], tokens[..i]).Ok?
    ensures Opened(OpenAfter([], tokens[..i]).value, tokens[i]) == OpenAfter([], tokens[..i + 1])
    ensures OpenAfter([], tokens[..i + 1]).Ok?
  {
    hide Opened;
    assert tokens == tokens[..i + 1] + tokens[i + 1..];
    OpenAfterConcat([], tokens[..i + 1], tokens[i + 1..]);
    assert tokens[..i + 1] == tokens[..i] + [tokens[i]];
    OpenAfterConcat([], tokens[..i], [tokens[i]]);
    assert [tokens[i]][1..] == [];
  }

  lemma StackStep(tokens: seq<Token>, i: nat, k: nat)
    requires i < |tokens|
    ensures k in Stack(tokens, i + 1) <==>
            (k == i && Opens(tokens[i])) || (k in Stack(tokens, i) && !Closes(tokens, i, k))
  {
    var open := Stack(tokens, i);
    var next := Stack(tokens, i + 1);
    if Opens(tokens[i]) {
      assert next[|open|] == i;
      assert forall m :: 0 <= m < |open| ==> next[m] == open[m];
    } else if tokens[i].kind == Close && open != [] {
      assert forall m :: 0 <= m < |next| ==> next[m] == open[m];
      assert open == next + [open[|open| - 1]];
    }
  }

  /** A section is open until it is closed. */
  lemma {:induction false} OpenUntilClosed(tokens: seq<Token>, k: nat, i: nat)
    requires k < i <= |tokens| && Opens(tokens[k])
    ensures k in Stack(tokens, i) <==> forall j :: k < j < i ==> !Closes(tokens, j, k)
    decreases i
  {
    hide Stack, Parent, Closes;
    StackStep(tokens, i - 1, k);
    if k == i - 1 {
    } else {
      OpenUntilClosed(tokens, k, i - 1);
    }
  }

  // ---------- The parser ----------

  /** All of the tokens, while nothing is stripped. */
  function Kept(raw: seq<Token>): (slots: seq<Option<Token>>)
    ensures |slots| == |raw| && forall k :: 0 <= k < |raw| ==> slots[k] == Some(raw[k])
  {
    seq(|raw|, k requires 0 <= k < |raw| => Some(raw[k]))
  }

  /** One more token in the current line. */
  lemma PushedLine(raw: seq<Token>, line: nat, t: Token)
    requires line <= |raw| && OneLine(raw[line..]) && (line == |raw| || !IsNewline(raw[|raw| - 1]))
    ensures (raw + [t])[..line] == raw[..line] && (raw + [t])[line..] == raw[line..] + [t]
    ensures OneLine(raw[line..] + [t])
    ensures Kept(raw[line..] + [t]) == Kept(raw[line..]) + [Some(t)]
    ensures HasTag(raw[line..] + [t]) == (HasTag(raw[line..]) || t.kind != Text)
    ensures HasContent(raw[line..] + [t]) == (HasContent(raw[line..]) || IsContent(t))
  {
    hide IsNewline, IsContent;
    var l := raw[line..];
    assert line < |raw| ==> l[|l| - 1] == raw[|raw| - 1];
    assert (l + [t])[|l|] == t;
    forall k | 0 <= k < |l| ensures (l + [t])[k] == l[k] {
    }
  }

  lemma LineStripped(raw: seq<Token>, line: nat)
    requires line <= |raw| && Complete(raw[..line]) && OneLine(raw[line..])
    ensures Stripped(raw) == Stripped(raw[..line]) + StripLine(raw[line..])
  {
    hide Stripped, StripLine;
    assert raw == raw[..line] + raw[line..];
    StrippedConcat(raw[..line], raw[line..]);
    StrippedOneLine(raw[line..]);
  }

  /** The blanks of the current line. */
  ghost predicate AreBlanks(raw: seq<Token>, line: nat, spaces: seq<nat>) {
    && (forall k :: 0 <= k < |spaces| ==> line <= spaces[k] < |raw| && IsBlankText(raw[spaces[k]]))
    && (forall k :: line <= k < |raw| && IsBlankText(raw[k]) ==> k in spaces)
  }

  lemma MoreBlanks(raw: seq<Token>, line: nat, spaces: seq<nat>, t: Token)
    requires line <= |raw| && AreBlanks(raw, line, spaces)
    ensures AreBlanks(raw + [t], line, if IsBlankText(t) then spaces + [|raw|] else spaces)
  {
    hide IsBlankText;
    var after := if IsBlankText(t) then spaces + [|raw|] else spaces;
    forall k | line <= k < |raw| + 1 && IsBlankText((raw + [t])[k]) ensures k in after {
      if k == |raw| {
        assert after[|spaces|] == k;
      } else {
        var m :| 0 <= m < |spaces| && spaces[m] == k;
        assert after[m] == k;
      }
    }
  }

  lemma EmptyLine(raw: seq<Token>)
    ensures raw[..|raw|] == raw && OneLine(raw[|raw|..]) && AreBlanks(raw, |raw|, [])
    ensures !HasTag(raw[|raw|..]) && !HasContent(raw[|raw|..])
    ensures Stripped(raw) + Kept(raw[|raw|..]) == Stripped(raw)
  {
    hide Stripped;
  }

  class Parser {
    var tokens: seq<Option<Token>>
    var spaces: seq<nat>
    var hasTag: bool
    var nonSpace: bool
    /** The tokens that have been read, and where the current line starts. */
    ghost var raw: seq<Token>
    ghost var line: nat

    ghost predicate Valid()
      reads this
    {
      && line <= |raw| && Complete(raw[..line]) && OneLine(raw[line..])
      && tokens == Stripped(raw[..line]) + Kept(raw[line..])
      && hasTag == HasTag(raw[line..]) && nonSpace == HasContent(raw[line..])
      && AreBlanks(raw, line, spaces)
    }

    /** The line end has not been read yet. */
    ghost predicate Within()
      reads this
    {
      line <= |raw| && (line == |raw| || !IsNewline(raw[|raw| - 1]))
    }

    constructor ()
      ensures Valid() && raw == [] && Within()
    {
      tokens, spaces, hasTag, nonSpace := [], [], false, false;
      raw, line := [], 0;
    }

    method Push(t: Token)
      requires Valid() && Within()
      modifies this
      ensures Valid() && raw == old(raw) + [t] && line == old(line)
    {
      hide HasTag, HasContent, IsContent, IsNewline, IsBlankText, Complete, OneLine, Stripped, Kept, AreBlanks;
      PushedLine(raw, line, t);
      MoreBlanks(raw, line, spaces, t);
      assert |tokens| == |raw|;
      if IsBlankText(t) {
        spaces := spaces + [|tokens|];
      }
      nonSpace := nonSpace || IsContent(t);
      hasTag := hasTag || t.kind != Text;
      tokens := tokens + [Some(t)];
      raw := raw + [t];
    }

    /** stripSpace. */
    method StripSpace()
      requires Valid()
      modifies this
      ensures raw == old(raw) && tokens == Stripped(raw)
      ensures line == |raw| && (Complete(raw) ==> Valid())
    {
      hide HasTag, HasContent, IsNewline, Complete, OneLine, Stripped, StripLine, Kept, AreBlanks;
      LineStripped(raw, line);
      EmptyLine(raw);
      DeleteSpaces();
      hasTag := false;
      nonSpace := false;
      line := |raw|;
    }

    method DeleteSpaces()
      requires Valid()
      modifies this`tokens, this`spaces
      ensures spaces == [] && tokens == Stripped(raw[..line]) + StripLine(raw[line..])
    {
      hide HasTag, HasContent, IsBlankText, Stripped, Complete, OneLine;
      ghost var before := Stripped(raw[..line]);
      if hasTag && !nonSpace {
        while |spaces| > 0
          invariant |tokens| == |raw| && forall k :: 0 <= k < line ==> tokens[k] == before[k]
          invariant forall k :: line <= k < |raw| && !IsBlankText(raw[k]) ==> tokens[k] == Some(raw[k])
          invariant forall k :: line <= k < |raw| && IsBlankText(raw[k]) ==> k in spaces || tokens[k] == None
          invariant forall k :: 0 <= k < |spaces| ==> line <= spaces[k] < |raw| && IsBlankText(raw[spaces[k]])
        {
          var k := spaces[|spaces| - 1];
          assert forall m :: m in spaces ==> m == k || m in spaces[..|spaces| - 1];
          spaces := spaces[..|spaces| - 1];
          tokens := tokens[k := None];
        }
      } else {
        spaces := [];
      }
    }

    /** The characters before a tag. */
    method AddText(value: string, start: nat)
      requires Valid() && Within()
      modifies this
      ensures Valid() && Within() && raw == old(raw) + Texts(value, start)
    {
      hide Valid, Within;
      ghost var texts := Texts(value, start);
      assert raw + texts[..0] == raw;
      for i := 0 to |value|
        invariant Valid() && Within() && raw == old(raw) + texts[..i]
      {
        assert texts[..i + 1] == texts[..i] + [texts[i]];
        AddCharacter(Token(Text, [value[i]], start + i, start + i + 1));
      }
      assert texts[..|value|] == texts;
    }

    method AddTag(t: Token)
      requires Valid() && Within() && t.kind != Text
      modifies this
      ensures Valid() && Within() && raw == old(raw) + [t]
    {
      hide Valid;
      Push(t);
    }

    method AddCharacter(t: Token)
      requires Valid() && Within() && t.kind == Text
      modifies this
      ensures Valid() && Within() && raw == old(raw) + [t]
    {
      hide Valid;
      Push(t);
      if IsNewline(t) {
        StripSpace();
      }
    }
  }

  /** From the type of a tag to its end. */
  method ScanTag(scanner: Scanner, close: string) returns (r: TagRead)
    requires scanner.Valid()
    modifies scanner
    ensures scanner.Valid() && r == ReadTag(old(scanner.tail), close) && scanner.tail == r.rest
    ensures r.Tag? ==> r.kind != Text
  {
    hide Matched, Until, KindOf, Scanner.Valid;
    var mark := scanner.Scan(TagType);
    var blanks := scanner.Scan(White);
    var value := [];
    if mark == "=" {
      value := scanner.ScanUntil(WhiteThenLiteral("="));
      blanks := scanner.Scan(WhiteThenLiteral("="));
      blanks := scanner.ScanUntil(WhiteThenLiteral(close));
    } else if mark == "{" {
      value := scanner.ScanUntil(WhiteThenLiteral("}" + close));
      blanks := scanner.Scan(WhiteThenLiteral("}"));
      blanks := scanner.ScanUntil(WhiteThenLiteral(close));
    } else {
      value := scanner.ScanUntil(WhiteThenLiteral(close));
    }
    var end := scanner.Scan(WhiteThenLiteral(close));
    r := if end == "" then NotClosed(scanner.tail) else Tag(KindOf(mark), value, scanner.tail);
  }

  lemma PrefixedTwice(a: seq<Token>, b: seq<Token>, more: Result<seq<Token>, Error>)
    ensures Prefixed(a, Prefixed(b, more)) == Prefixed(a + b, more)
  {
    if more.Ok? {
      assert a + (b + more.value) == a + b + more.value;
    }
  }

  /** The text before the next tag. */
  method ReadText(scanner: Scanner, parser: Parser, open: string) returns (start: nat)
    requires scanner.Valid() && parser.Valid() && parser.Within()
    modifies scanner, parser
    ensures scanner.Valid() && parser.Valid() && parser.Within() && start == scanner.pos
    ensures var tail, u := old(scanner.tail), Until(LiteralThenWhite(open), old(scanner.tail));
            && scanner.tail == tail[u..]
            && parser.raw == old(parser.raw) + Texts(tail[..u], |scanner.template| - |tail|)
  {
    hide Parser.Valid, Parser.Within, Until;
    start := scanner.pos;
    var value := scanner.ScanUntil(LiteralThenWhite(open));
    parser.AddText(value, start);
    start := start + |value|;
  }

  /** A tag behind its opening. */
  method AcceptTag(scanner: Scanner, parser: Parser, tags: Tags, sections: seq<Token>, start: nat)
    returns (failed: Option<Error>, newTags: Tags, open: seq<Token>)
    requires scanner.Valid() && parser.Valid() && parser.Within()
    modifies scanner, parser
    ensures scanner.Valid() && |scanner.tail| <= |old(scanner.tail)|
    ensures var r := ReadTag(old(scanner.tail), tags.close);
            var n := |scanner.template|;
            && (r.NotClosed? ==> failed == Some(UnclosedTag(n - |r.rest|)))
            && (r.Tag? ==>
                  var t := Token(r.kind, r.value, start, n - |r.rest|);
                  && (failed.Some? ==> BehindTag(n, r.rest, tags, sections, t) == Err(failed.value))
                  && (failed.None? ==> parser.Valid() && parser.Within() && parser.raw == old(parser.raw) + [t] &&
                                       scanner.tail == r.rest &&
                                       BehindTag(n, r.rest, tags, sections, t) == Tokens(n, r.rest, newTags, open)))
  {
    hide ReadTag, Parser.Valid, Parser.Within, Opened, NewTags, Tokens;
    failed, newTags, open := None, tags, sections;
    var r := ScanTag(scanner, tags.close);
    if r.NotClosed? {
      failed := Some(UnclosedTag(scanner.pos));
      return;
    }
    var t := Token(r.kind, r.value, start, scanner.pos);
    parser.AddTag(t);
    failed, open := CheckSections(sections, t);
    if failed.Some? {
      return;
    }
    if t.kind == Delimiters {
      var compiled := NewTags(t.value);
      if compiled.None? {
        failed := Some(InvalidTags);
        return;
      }
      newTags := compiled.value;
    }
  }

  /** All of the template; what is to be nested is in `parser`. */
  method ReadTokens(template: string, defaults: Tags) returns (parser: Parser, failed: Option<Error>)
    ensures fresh(parser)
    ensures failed.Some? ==> Tokens(|template|, template, defaults, []) == Err(failed.value)
    ensures failed.None? ==>
              && Tokens(|template|, template, defaults, []) == Ok(parser.raw)
              && parser.tokens == Stripped(parser.raw)
  {
    hide Until, Matched, ReadTag, Texts, Parser.Valid, Parser.Within, BehindTag, Stripped, Tokens, FromTag, Prefixed;
    var scanner := new Scanner(template);
    parser := new Parser();
    failed := None;
    var tags, sections: seq<Token> := defaults, [];
    var reading, eos := true, template == "";
    ghost var n := |template|;
    NothingRead(Tokens(n, template, defaults, []));
    while reading && !eos
      invariant scanner.Valid() && scanner.template == template && parser.Valid() && parser.Within()
      invariant eos <==> scanner.tail == ""
      invariant fresh(scanner) && fresh(parser) && failed.None?
      invariant Tokens(n, template, defaults, []) ==
                Prefixed(parser.raw, if reading then Tokens(n, scanner.tail, tags, sections)
                                     else Finished(sections, scanner.pos))
      decreases |scanner.tail|, reading
    {
      BeforeTag(parser.raw, n, scanner.tail, tags, sections);
      var start := ReadText(scanner, parser, tags.open);
      BehindOpening(parser.raw, n, scanner.tail, tags, sections);
      var opening := scanner.Scan(LiteralThenWhite(tags.open));
      if opening == "" {
        reading := false;
      } else {
        failed, tags, sections := AcceptTag(scanner, parser, tags, sections, start);
        if failed.Some? {
          return;
        }
      }
      eos := scanner.Eos();
    }
    if |sections| > 0 {
      failed := Some(UnclosedSection(sections[|sections| - 1].value, scanner.pos));
    }
    parser.StripSpace();
    TheEnd(parser.raw, n, tags, sections);
  }

  lemma BeforeTag(raw: seq<Token>, n: nat, tail: string, tags: Tags, open: seq<Token>)
    requires tail != "" && |tail| <= n
    ensures var u := Until(LiteralThenWhite(tags.open), tail);
            Prefixed(raw, Tokens(n, tail, tags, open)) ==
            Prefixed(raw + Texts(tail[..u], n - |tail|), FromTag(n, tail[u..], tags, open))
  {
    hide Until, FromTag, Texts;
    var u := Until(LiteralThenWhite(tags.open), tail);
    PrefixedTwice(raw, Texts(tail[..u], n - |tail|), FromTag(n, tail[u..], tags, open));
  }

  lemma TheEnd(raw: seq<Token>, n: nat, tags: Tags, open: seq<Token>)
    ensures Tokens(n, "", tags, open) == Finished(open, n)
    ensures forall at :: Prefixed(raw, Finished(open, at)) ==
                         if open == [] then Ok(raw) else Err(UnclosedSection(open[|open| - 1].value, at))
  {
    assert raw + [] == raw;
  }

  lemma BehindOpening(raw: seq<Token>, n: nat, t: string, tags: Tags, sections: seq<Token>)
    requires |t| <= n
    ensures Matched(LiteralThenWhite(tags.open), t) == 0 ==> FromTag(n, t, tags, sections) == Finished(sections, n - |t|)
    ensures Matched(LiteralThenWhite(tags.open), t) > 0 ==>
              var r := ReadTag(t[Matched(LiteralThenWhite(tags.open), t)..], tags.close);
              && (r.NotClosed? ==> Prefixed(raw, FromTag(n, t, tags, sections)) == Err(UnclosedTag(n - |r.rest|)))
              && (r.Tag? ==>
                    var token := Token(r.kind, r.value, n - |t|, n - |r.rest|);
                    && Prefixed(raw, FromTag(n, t, tags, sections)) ==
                       Prefixed(raw + [token], BehindTag(n, r.rest, tags, sections, token))
                    && (BehindTag(n, r.rest, tags, sections, token).Err? ==>
                          Prefixed(raw, FromTag(n, t, tags, sections)) == BehindTag(n, r.rest, tags, sections, token)))
  {
    hide Matched, ReadTag, BehindTag;
    if Matched(LiteralThenWhite(tags.open), t) > 0 {
      var r := ReadTag(t[Matched(LiteralThenWhite(tags.open), t)..], tags.close);
      if r.Tag? {
        var token := Token(r.kind, r.value, n - |t|, n - |r.rest|);
        PrefixedTwice(raw, [token], BehindTag(n, r.rest, tags, sections, token));
      }
    }
  }

  /** Section nesting. */
  method CheckSections(open: seq<Token>, t: Token) returns (failed: Option<Error>, sections: seq<Token>)
    ensures Opened(open, t) == if failed.Some? then Err(failed.value) else Ok(sections)
  {
    failed, sections := None, open;
    if t.kind == Section || t.kind == Inverted {
      sections := sections + [t];
    } else if t.kind == Close {
      if |sections| == 0 {
        failed := Some(UnopenedSection(t.value, t.start));
        return;
      }
      var section := sections[|sections| - 1];
      sections := sections[..|sections| - 1];
      if section.value != t.value {
        failed := Some(UnclosedSection(section.value, t.start));
      }
    }
  }

  lemma NothingRead(all: Result<seq<Token>, Error>)
    ensures Prefixed([], all) == all
  {
    if all.Ok? {
      assert [] + all.value == all.value;
    }
  }

  method SquashTokens(slots: seq<Option<Token>>) returns (squashed: seq<Token>)
    ensures squashed == Squashed([], slots)
  {
    squashed := [];
    assert slots[0..] == slots;
    for i := 0 to |slots|
      invariant Squashed(squashed, slots[i..]) == Squashed([], slots)
    {
      assert slots[i..][1..] == slots[i + 1..];
      if slots[i].Some? {
        var t := slots[i].value;
        if t.kind == Text && |squashed| > 0 && squashed[|squashed| - 1].kind == Text {
          var last := squashed[|squashed| - 1];
          squashed := squashed[|squashed| - 1 := Token(Text, last.value + t.value, last.start, t.end)];
          assert squashed == squashed[..|squashed| - 1] + [squashed[|squashed| - 1]];
        } else {
          squashed := squashed + [t];
        }
      }
    }
  }

  // ---------- Building the tree ----------

  /** Where the closing tag of section `k` starts, if it comes before token `i`. */
  function ClosingOf(tokens: seq<Token>, k: nat, i: nat): Option<nat>
    requires i <= |tokens|
  {
    if i == 0 then None
    else if Closes(tokens, i - 1, k) then Some(tokens[i - 1].start)
    else ClosingOf(tokens, k, i - 1)
  }

  class Node {
    const token: Token
    var children: seq<Node>
    var closing: Option<nat>

    constructor (token: Token)
      ensures this.token == token && children == [] && closing == None
    {
      this.token := token;
      children, closing := [], None;
    }
  }

  ghost function PickedNodes(nodes: seq<Node>, indices: seq<nat>): (p: seq<Node>)
    requires forall k :: 0 <= k < |indices| ==> indices[k] < |nodes|
    ensures |p| == |indices| && forall k :: 0 <= k < |p| ==> p[k] == nodes[indices[k]]
  {
    seq(|indices|, k requires 0 <= k < |indices| && indices[k] < |nodes| => nodes[indices[k]])
  }

  ghost predicate AreNodes(nodes: seq<Node>, tokens: seq<Token>) {
    && |nodes| == |tokens| && (forall k :: 0 <= k < |nodes| ==> nodes[k].token == tokens[k])
    && (forall k, m :: 0 <= k < m < |nodes| ==> nodes[k] != nodes[m])
  }

  ghost function Kids(nodes: seq<Node>): (kids: seq<seq<Node>>)
    reads nodes
    ensures |kids| == |nodes| && forall k :: 0 <= k < |nodes| ==> kids[k] == nodes[k].children
  {
    seq(|nodes|, k requires 0 <= k < |nodes| reads nodes => nodes[k].children)
  }

  ghost function Closings(nodes: seq<Node>): (closings: seq<Option<nat>>)
    reads nodes
    ensures |closings| == |nodes| && forall k :: 0 <= k < |nodes| ==> closings[k] == nodes[k].closing
  {
    seq(|nodes|, k requires 0 <= k < |nodes| reads nodes => nodes[k].closing)
  }

  /** What is directly in a section. */
  ghost function Inside(nodes: seq<Node>, tokens: seq<Token>, q: Option<nat>, i: nat): seq<Node>
    requires i <= |nodes| == |tokens|
  {
    PickedNodes(nodes, Children(tokens, q, i))
  }

  /** What the first `i` tokens look like as a tree. */
  ghost predicate IsTree(nodes: seq<Node>, tokens: seq<Token>, i: nat, nested: seq<Node>,
                         kids: seq<seq<Node>>, closings: seq<Option<nat>>)
  {
    && i <= |tokens| == |nodes| == |kids| == |closings|
    && nested == Inside(nodes, tokens, None, i)
    && (forall k :: 0 <= k < i && Opens(tokens[k]) ==>
          && kids[k] == Inside(nodes, tokens, Some(k), i)
          && closings[k] == ClosingOf(tokens, k, i))
    && (forall k :: i <= k < |nodes| ==> closings[k] == None)
  }

  ghost predicate Shows(nodes: seq<Node>, tokens: seq<Token>, i: nat, nested: seq<Node>)
    reads nodes
  {
    IsTree(nodes, tokens, i, nested, Kids(nodes), Closings(nodes))
  }

  /** Nothing is in a section before it is opened. */
  lemma {:induction false} NothingInside(tokens: seq<Token>, k: nat, i: nat)
    requires i <= |tokens| && i <= k + 1
    ensures Children(tokens, Some(k), i) == [] && ClosingOf(tokens, k, i) == None
    decreases i
  {
    hide Stack;
    if i > 0 {
      NothingInside(tokens, k, i - 1);
    }
  }

  lemma PickedMore(nodes: seq<Node>, indices: seq<nat>, i: nat)
    requires i < |nodes| && forall k :: 0 <= k < |indices| ==> indices[k] < |nodes|
    ensures PickedNodes(nodes, indices + [i]) == PickedNodes(nodes, indices) + [nodes[i]]
    ensures indices != [] ==>
              PickedNodes(nodes, indices[..|indices| - 1]) == PickedNodes(nodes, indices)[..|indices| - 1]
  {
  }

  /** What a token that is not a closing tag adds to a section. */
  lemma ChildrenStep(nodes: seq<Node>, tokens: seq<Token>, q: Option<nat>, i: nat)
    requires i < |nodes| == |tokens|
    ensures Inside(nodes, tokens, q, i + 1) ==
            Inside(nodes, tokens, q, i) +
            if tokens[i].kind != Close && Parent(tokens, i) == q then [nodes[i]] else []
  {
    hide Parent;
    PickedMore(nodes, Children(tokens, q, i), i);
  }

  lemma ClosingStep(tokens: seq<Token>, k: nat, i: nat)
    requires i < |tokens|
    ensures ClosingOf(tokens, k, i + 1) ==
            if tokens[i].kind == Close && Parent(tokens, i) == Some(k) then Some(tokens[i].start)
            else ClosingOf(tokens, k, i)
  {
  }

  /** What a token that is no closing tag changes. */
  lemma TreeWithToken(nodes: seq<Node>, tokens: seq<Token>, i: nat, nested: seq<Node>,
                      kids: seq<seq<Node>>, closings: seq<Option<nat>>)
    requires i < |nodes| == |tokens| && tokens[i].kind != Close && IsTree(nodes, tokens, i, nested, kids, closings)
    ensures var p := Parent(tokens, i);
            var kids1 := if p.None? then kids else kids[p.value := kids[p.value] + [nodes[i]]];
            IsTree(nodes, tokens, i + 1, if p.None? then nested + [nodes[i]] else nested,
                   if Opens(tokens[i]) then kids1[i := []] else kids1, closings)
  {
    hide Stack, ClosingOf, Parent, Inside;
    var p, t := Parent(tokens, i), tokens[i];
    var kids1 := if p.None? then kids else kids[p.value := kids[p.value] + [nodes[i]]];
    var kids2 := if Opens(tokens[i]) then kids1[i := []] else kids1;
    ChildrenStep(nodes, tokens, None, i);
    forall k | 0 <= k <= i && Opens(tokens[k])
      ensures kids2[k] == Inside(nodes, tokens, Some(k), i + 1) && closings[k] == ClosingOf(tokens, k, i + 1)
    {
      ChildrenStep(nodes, tokens, Some(k), i);
      ClosingStep(tokens, k, i);
      NobodyInside(nodes, tokens, i);
    }
  }

  lemma NobodyInside(nodes: seq<Node>, tokens: seq<Token>, i: nat)
    requires i < |nodes| == |tokens|
    ensures Inside(nodes, tokens, Some(i), i + 1) == [] && ClosingOf(tokens, i, i + 1) == None
  {
    NothingInside(tokens, i, i + 1);
  }

  /** What a closing tag changes. */
  lemma TreeWithClosing(nodes: seq<Node>, tokens: seq<Token>, i: nat, nested: seq<Node>,
                        kids: seq<seq<Node>>, closings: seq<Option<nat>>)
    requires i < |nodes| == |tokens| && tokens[i].kind == Close && IsTree(nodes, tokens, i, nested, kids, closings)
    requires Parent(tokens, i).Some?
    ensures IsTree(nodes, tokens, i + 1, nested, kids, closings[Parent(tokens, i).value := Some(tokens[i].start)])
  {
    hide Stack, ClosingOf, Parent, Inside;
    var p := Parent(tokens, i).value;
    ChildrenStep(nodes, tokens, None, i);
    assert nested + [] == nested;
    forall k | 0 <= k <= i && Opens(tokens[k])
      ensures kids[k] == Inside(nodes, tokens, Some(k), i + 1)
      ensures closings[p := Some(tokens[i].start)][k] == ClosingOf(tokens, k, i + 1)
    {
      ChildrenStep(nodes, tokens, Some(k), i);
      ClosingStep(tokens, k, i);
      assert kids[k] + [] == kids[k];
    }
  }

  lemma OnlyOne(nodes: seq<Node>, tokens: seq<Token>, i: nat)
    requires AreNodes(nodes, tokens) && i < |nodes|
    ensures forall k :: 0 <= k < |nodes| ==> (nodes[k] == nodes[i] <==> k == i)
  {
  }

  /** A token becomes the last one of the section that is open. */
  method Collect(nodes: seq<Node>, ghost tokens: seq<Token>, i: nat, collector: Node?, nested: seq<Node>)
    returns (more: seq<Node>)
    requires AreNodes(nodes, tokens) && i < |nodes| && tokens[i].kind != Close
    requires Shows(nodes, tokens, i, nested)
    requires collector == if Parent(tokens, i).None? then null else nodes[Parent(tokens, i).value]
    modifies nodes
    ensures Shows(nodes, tokens, i + 1, more)
  {
    hide IsTree, Parent, AreNodes;
    SameKinds(nodes, tokens);
    TreeWithToken(nodes, tokens, i, nested, Kids(nodes), Closings(nodes));
    ghost var kids, p := Kids(nodes), Parent(tokens, i);
    var node := nodes[i];
    more := nested;
    if collector == null {
      more := more + [node];
    } else {
      collector.children := collector.children + [node];
    }
    ghost var kids1 := if p.None? then kids else kids[p.value := kids[p.value] + [nodes[i]]];
    OnlyOne(nodes, tokens, if p.None? then 0 else p.value);
    OnlyOne(nodes, tokens, i);
    assert Kids(nodes) == kids1;
    if node.token.kind == Section || node.token.kind == Inverted {
      node.children := [];
    }
    assert Kids(nodes) == if Opens(tokens[i]) then kids1[i := []] else kids1;
    assert Closings(nodes) == old(Closings(nodes));
  }

  method Finish(nodes: seq<Node>, ghost tokens: seq<Token>, i: nat, section: Node, ghost nested: seq<Node>)
    requires AreNodes(nodes, tokens) && i < |nodes| && tokens[i].kind == Close
    requires Shows(nodes, tokens, i, nested)
    requires Parent(tokens, i).Some? && section == nodes[Parent(tokens, i).value]
    modifies nodes
    ensures Shows(nodes, tokens, i + 1, nested)
  {
    hide IsTree, Parent;
    TreeWithClosing(nodes, tokens, i, nested, Kids(nodes), Closings(nodes));
    ghost var closings, p := Closings(nodes), Parent(tokens, i);
    OnlyOne(nodes, tokens, p.value);
    section.closing := Some(nodes[i].token.start);
    assert Closings(nodes) == closings[p.value := Some(tokens[i].start)];
    assert Kids(nodes) == old(Kids(nodes));
  }

  /** The sections that are open, as the loop keeps them. */
  ghost function OpenNodes(nodes: seq<Node>, tokens: seq<Token>, i: nat): seq<Node>
    requires i <= |nodes| == |tokens|
  {
    PickedNodes(nodes, Stack(tokens, i))
  }

  lemma StackNodes(nodes: seq<Node>, tokens: seq<Token>, i: nat)
    requires i < |nodes| == |tokens| && OpenAfter([], tokens).Ok?
    ensures var open := OpenNodes(nodes, tokens, i);
            && (Parent(tokens, i).Some? <==> open != [])
            && (open != [] ==> open[|open| - 1] == nodes[Parent(tokens, i).value])
            && (tokens[i].kind == Close ==> open != [])
            && OpenNodes(nodes, tokens, i + 1) ==
               if Opens(tokens[i]) then open + [nodes[i]]
               else if tokens[i].kind == Close then open[..|open| - 1]
               else open
  {
    hide OpenAfter;
    StackIsOpen(tokens, i);
    PickedMore(nodes, Stack(tokens, i), i);
  }

  /** nestTokens. */
  method NestTokens(nodes: seq<Node>, ghost tokens: seq<Token>) returns (nested: seq<Node>)
    requires AreNodes(nodes, tokens) && OpenAfter([], tokens).Ok?
    requires forall k :: 0 <= k < |nodes| ==> nodes[k].closing == None
    modifies nodes
    ensures Shows(nodes, tokens, |tokens|, nested)
  {
    hide OpenAfter, IsTree, Shows, Parent, OpenNodes, AreNodes;
    nested := [];
    var sections: seq<Node> := [];
    var collector: Node? := null;
    SameKinds(nodes, tokens);
    AtFirst(nodes, tokens);
    for i := 0 to |nodes|
      invariant Shows(nodes, tokens, i, nested)
      invariant sections == OpenNodes(nodes, tokens, i)
      invariant collector == if sections == [] then null else sections[|sections| - 1]
    {
      StackNodes(nodes, tokens, i);
      var node := nodes[i];
      if node.token.kind == Close {
        var section := sections[|sections| - 1];
        sections := sections[..|sections| - 1];
        Finish(nodes, tokens, i, section, nested);
        collector := if |sections| > 0 then sections[|sections| - 1] else null;
      } else {
        nested := Collect(nodes, tokens, i, collector, nested);
        if node.token.kind == Section || node.token.kind == Inverted {
          sections := sections + [node];
          collector := node;
        }
      }
    }
  }

  lemma SameKinds(nodes: seq<Node>, tokens: seq<Token>)
    requires AreNodes(nodes, tokens)
    ensures |nodes| == |tokens| && forall k :: 0 <= k < |nodes| ==> nodes[k].token == tokens[k]
  {
  }

  lemma AtFirst(nodes: seq<Node>, tokens: seq<Token>)
    requires |nodes| == |tokens| && forall k :: 0 <= k < |nodes| ==> nodes[k].closing == None
    ensures Shows(nodes, tokens, 0, []) && OpenNodes(nodes, tokens, 0) == []
  {
  }

  method MakeNodes(tokens: seq<Token>) returns (nodes: seq<Node>)
    ensures AreNodes(nodes, tokens) && forall k :: 0 <= k < |nodes| ==> fresh(nodes[k]) && nodes[k].closing == None
  {
    nodes := [];
    for i := 0 to |tokens|
      invariant AreNodes(nodes, tokens[..i])
      invariant forall k :: 0 <= k < i ==> fresh(nodes[k]) && nodes[k].closing == None
    {
      var node := new Node(tokens[i]);
      nodes := nodes + [node];
    }
    assert tokens[..|tokens|] == tokens;
  }

  /** What a template is parsed to, before it is made a tree. */
  function Parsed(template: string, tags: Tags): Result<seq<Token>, Error> {
    match Tokens(|template|, template, tags, [])
    case Err(e) => Err(e)
    case Ok(raw) => Ok(Squashed([], Stripped(raw)))
  }

  /** parseTemplate. */
  method ParseTemplate(template: string, tags: Tags)
    returns (failed: Option<Error>, nested: seq<Node>, ghost nodes: seq<Node>)
    ensures failed.Some? ==> Parsed(template, tags) == Err(failed.value)
    ensures failed.None? ==> Parsed(template, tags).Ok?
    ensures failed.None? ==>
              AreNodes(nodes, Parsed(template, tags).value) &&
              Shows(nodes, Parsed(template, tags).value, |nodes|, nested)
  {
    hide Tokens, Stripped, Squashed, OpenAfter, AreNodes, Shows;
    nested, nodes := [], [];
    var parser;
    parser, failed := ReadTokens(template, tags);
    if failed.None? {
      var squashed := SquashTokens(parser.tokens);
      var all := MakeNodes(squashed);
      SquashedNest(parser.raw);
      TokensNest(|template|, template, tags, []);
      SameKinds(all, squashed);
      nested := NestTokens(all, squashed);
      nodes := all;
    }
  }

  // ---------- The main results ----------

  /** What is in no token is a blank. */
  ghost predicate Covers(template: string, tokens: seq<Token>, to: nat) {
    forall p :: 0 <= p < to <= |template| ==> IsWhite(template[p]) || exists t :: t in tokens && t.start <= p < t.end
  }

  lemma MergedCovers(template: string, done: seq<Token>, t: Token)
    requires Covers(template, done, t.start) && t.start < t.end <= |template|
    requires forall d :: d in done ==> d.start <= d.end <= t.start
    ensures Covers(template, Merged(done, t), t.end)
    ensures forall d :: d in Merged(done, t) ==> d.start <= d.end <= t.end
  {
    var merged := Merged(done, t);
    forall p | 0 <= p < t.end && !IsWhite(template[p])
      ensures exists m :: m in merged && m.start <= p < m.end
    {
      if p < t.start {
        var d :| d in done && d.start <= p < d.end;
        var k :| 0 <= k < |done| && done[k] == d;
        assert merged[k] in merged;
      } else {
        assert merged[|merged| - 1] in merged;
      }
    }
  }

  lemma {:induction false} SquashedCovers(
    template: string, done: seq<Token>, raw: seq<Token>, slots: seq<Option<Token>>, from: nat)
    requires Covers(template, done, from) && Contiguous(raw, from) && EndOf(raw, from) <= |template|
    requires forall d :: d in done ==> d.start <= d.end <= from
    requires forall t :: t in raw ==> IsSource(template, t) && (t.kind == Text ==> t.end == t.start + 1)
    requires |slots| == |raw|
    requires forall k :: 0 <= k < |slots| ==> slots[k] == Some(raw[k]) || (slots[k].None? && IsBlankText(raw[k]))
    ensures Covers(template, Squashed(done, slots), EndOf(raw, from))
    decreases |raw|
  {
    hide Covers, Merged, IsWhite;
    if raw != [] {
      var t := raw[0];
      EndIsLater(raw, from);
      if slots[0].Some? {
        MergedCovers(template, done, t);
        SquashedCovers(template, Merged(done, t), raw[1..], slots[1..], t.end);
      } else {
        BlankCovers(template, done, t);
        SquashedCovers(template, done, raw[1..], slots[1..], t.end);
      }
    }
  }

  lemma BlankCovers(template: string, done: seq<Token>, t: Token)
    requires Covers(template, done, t.start) && IsSource(template, t) && t.end == t.start + 1 && IsBlankText(t)
    ensures Covers(template, done, t.end)
  {
    assert template[t.start..t.end][0] == template[t.start];
  }

  lemma {:induction false} EndIsLater(raw: seq<Token>, from: nat)
    requires Contiguous(raw, from)
    ensures raw != [] ==> raw[0].end <= EndOf(raw, from)
    decreases |raw|
  {
    if |raw| > 1 {
      EndIsLater(raw[1..], raw[0].end);
    }
  }

  /**
   * Text is what is at its place, tokens are in order, no two of them are text in succession, and whatever
   * of the template is in none of them is a blank.
   */
  lemma ParsedIsSource(template: string, tags: Tags)
    requires Parsed(template, tags).Ok?
    ensures FromSource(template, Parsed(template, tags).value, |template|)
    ensures Alternates(Parsed(template, tags).value)
    ensures tags.open != "" ==> Covers(template, Parsed(template, tags).value, |template|)
  {
    hide Tokens, Stripped, Squashed, TagsAfter, IsSource, Contiguous, Covers, IsWhite, IsBlankText;
    var raw := Tokens(|template|, template, tags, []).value;
    assert template[0..] == template;
    TokensTile(template, template, tags, []);
    TextIsSource(template, [], raw, 0);
    SquashedAlternates([], Stripped(raw));
    FromSourceLater(template, Squashed([], Stripped(raw)), EndOf(raw, 0), |template|);
    OnlyTextIsStripped(raw);
    TextsAreCharacters(|template|, template, tags, []);
    NothingToCover(template);
    SquashedCovers(template, [], raw, Stripped(raw), 0);
  }

  lemma NothingToCover(template: string)
    ensures Covers(template, [], 0)
  {
  }

  lemma {:induction false} TextsAreCharacters(n: nat, tail: string, tags: Tags, open: seq<Token>)
    requires |tail| <= n && Tokens(n, tail, tags, open).Ok?
    ensures forall t :: t in Tokens(n, tail, tags, open).value ==> t.kind == Text ==> t.end == t.start + 1
    decreases |tail|, 1
  {
    hide Until, FromTag;
    if tail != [] {
      FromTagCharacters(n, tail[Until(LiteralThenWhite(tags.open), tail)..], tags, open);
    }
  }

  lemma {:induction false} FromTagCharacters(n: nat, tail: string, tags: Tags, open: seq<Token>)
    requires |tail| <= n && FromTag(n, tail, tags, open).Ok?
    ensures forall t :: t in FromTag(n, tail, tags, open).value ==> t.kind == Text ==> t.end == t.start + 1
    decreases |tail|, 0
  {
    hide Opened, ReadTag, TagsBehind, Matched, Tokens;
    var m := Matched(LiteralThenWhite(tags.open), tail);
    if m != 0 {
      var r := ReadTag(tail[m..], tags.close);
      var t := Token(r.kind, r.value, n - |tail|, n - |r.rest|);
      ReadTagIsTail(tail[m..], tags.close);
      TextsAreCharacters(n, r.rest, TagsBehind(tags, t).value, Opened(open, t).value);
    }
  }

  lemma ParsedNest(template: string, tags: Tags)
    requires Parsed(template, tags).Ok?
    ensures OpenAfter([], Parsed(template, tags).value) == Ok([])
  {
    hide Tokens, OpenAfter;
    TokensNest(|template|, template, tags, []);
    SquashedNest(Tokens(|template|, template, tags, []).value);
  }

  lemma {:induction false} ClosedAt(tokens: seq<Token>, k: nat, j: nat, i: nat)
    requires Closes(tokens, j, k) && j < i <= |tokens| && forall m :: j < m < i ==> !Closes(tokens, m, k)
    ensures ClosingOf(tokens, k, i) == Some(tokens[j].start)
    decreases i
  {
    hide Closes;
    if i - 1 != j {
      ClosedAt(tokens, k, j, i - 1);
    }
  }

  /** The closing tag of a section, which is named like it. */
  lemma {:induction false} SectionIsClosed(tokens: seq<Token>, k: nat) returns (j: nat)
    requires OpenAfter([], tokens) == Ok([]) && k < |tokens| && Opens(tokens[k])
    ensures k < j < |tokens| && Closes(tokens, j, k) && tokens[j].value == tokens[k].value
    ensures forall i: nat :: i <= |tokens| ==> (k in Stack(tokens, i) <==> k < i <= j)
    ensures ClosingOf(tokens, k, |tokens|) == Some(tokens[j].start)
  {
    hide OpenAfter, Stack, Closes, ClosingOf, Opens;
    var n := |tokens|;
    StackIsOpen(tokens, n);
    assert tokens[..n] == tokens;
    assert |Picked(tokens, Stack(tokens, n))| == 0;
    OpenUntilClosed(tokens, k, n);
    j :| k < j < n && Closes(tokens, j, k);
    StackIsOpen(tokens, j);
    ParentIs(tokens, j, k);
    forall i: nat | i <= n ensures k in Stack(tokens, i) <==> k < i <= j {
      IsOpen(tokens, k, j, i);
    }
    forall m: nat | j < m < n ensures !Closes(tokens, m, k) {
      IsOpen(tokens, k, j, m);
    }
    ClosedAt(tokens, k, j, n);
  }

  lemma ParentIs(tokens: seq<Token>, j: nat, k: nat)
    requires Closes(tokens, j, k)
    ensures j < |tokens| && tokens[j].kind == Close && Parent(tokens, j) == Some(k)
  {
  }

  /** A section that has been closed is not open again. */
  lemma {:induction false} IsOpen(tokens: seq<Token>, k: nat, j: nat, i: nat)
    requires k < j < |tokens| && Closes(tokens, j, k) && Opens(tokens[k]) && i <= |tokens|
    ensures k in Stack(tokens, i) <==> k < i <= j
    ensures i > j && i < |tokens| ==> !Closes(tokens, i, k)
  {
    if i <= k {
    } else if i <= j {
      OpenUntilClosed(tokens, k, i);
      OpenUntilClosed(tokens, k, j);
      TopIsOpen(tokens, k, j);
    } else {
      OpenUntilClosed(tokens, k, i);
      if i < |tokens| {
        TopIsClosed(tokens, k, i);
      }
    }
  }

  lemma TopIsOpen(tokens: seq<Token>, k: nat, j: nat)
    requires Closes(tokens, j, k)
    ensures k in Stack(tokens, j)
  {
  }

  lemma TopIsClosed(tokens: seq<Token>, k: nat, i: nat)
    requires i < |tokens| && k !in Stack(tokens, i)
    ensures !Closes(tokens, i, k)
  {
  }

  /**
   * The span of a section holds exactly the tokens inside it, at any depth; those directly inside are
   * its children by `Inside`, and the recorded end is the start of its own closing tag.
   */
  lemma SectionSpan(template: string, tags: Tags, k: nat, i: nat)
    requires Parsed(template, tags).Ok?
    requires var tokens := Parsed(template, tags).value;
             k < |tokens| && i < |tokens| && Opens(tokens[k])
    ensures var tokens := Parsed(template, tags).value;
            var closing := ClosingOf(tokens, k, |tokens|);
            && closing.Some?
            && (k in Stack(tokens, i) && !Closes(tokens, i, k) <==>
                tokens[k].end <= tokens[i].start && tokens[i].end <= closing.value)
  {
    hide Stack, OpenAfter, Parsed, ClosingOf, Closes, IsSource;
    ParsedIsSource(template, tags);
    ParsedNest(template, tags);
    var tokens := Parsed(template, tags).value;
    var j := SectionIsClosed(tokens, k);
    assert tokens[i] in tokens && tokens[j] in tokens && tokens[k] in tokens;
    if i > j {
      assert tokens[j].end <= tokens[i].start;
    }
    if i < j {
      NotClosedBefore(tokens, k, j, i);
    }
  }

  lemma NotClosedBefore(tokens: seq<Token>, k: nat, j: nat, i: nat)
    requires k < j < |tokens| && Closes(tokens, j, k) && Opens(tokens[k]) && i < j
    ensures !Closes(tokens, i, k)
  {
    if Closes(tokens, i, k) {
      if i > k {
        IsOpen(tokens, k, i, j);
      }
    }
  }
}
