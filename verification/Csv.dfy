/**
 A reader for separated values: quoted fields, any line ending, and a file read block by
 block into a buffer whose front is cut off as it has been read.
 */
module Csv {
  import opened Options

  // ---------- Patterns ----------

  /** The three patterns of the reader: `"("?)`, one of the separators, and ` *([^ ])`. */
  datatype Pattern = Quote | OneOf(chars: set<char>) | AfterSpaces

  /** First and last position, counting from one, and what was captured. */
  datatype Match = Match(first: nat, last: nat, capture: Option<char>)

  predicate Fits(p: Pattern, c: char) {
    match p
    case Quote => c == '"'
    case OneOf(chars) => c in chars
    case AfterSpaces => c != ' '
  }

  /** The first position from `init` on with a character that fits. */
  function Position(p: Pattern, s: string, init: nat): (i: Option<nat>)
    requires 1 <= init <= |s| + 1
    ensures i.Some? ==> init <= i.value <= |s| && Fits(p, s[i.value - 1])
    ensures i.Some? ==> forall k :: init - 1 <= k < i.value - 1 ==> !Fits(p, s[k])
    ensures i.None? ==> forall k :: init - 1 <= k < |s| ==> !Fits(p, s[k])
    decreases |s| + 1 - init
  {
    if init == |s| + 1 then None
    else if Fits(p, s[init - 1]) then Some(init)
    else Position(p, s, init + 1)
  }

  /** string.find for these patterns. */
  function Found(p: Pattern, s: string, init: nat): (m: Option<Match>)
    requires 1 <= init <= |s| + 1
    ensures m.Some? ==> init <= m.value.first <= m.value.last <= |s|
    ensures m.Some? && !p.Quote? ==> m.value.capture == Some(s[m.value.last - 1])
  {
    match Position(p, s, init)
    case None => None
    case Some(i) =>
      match p
      case Quote => if i < |s| && s[i] == '"' then Some(Match(i, i + 1, Some('"'))) else Some(Match(i, i, None))
      case OneOf(_) => Some(Match(i, i, Some(s[i - 1])))
      case AfterSpaces => Some(Match(init, i, Some(s[i - 1])))
  }

  /** A position is determined by what fits before it. */
  lemma PositionIs(p: Pattern, s: string, init: nat, i: Option<nat>)
    requires 1 <= init <= |s| + 1
    requires i.Some? ==> init <= i.value <= |s| && Fits(p, s[i.value - 1])
    requires i.Some? ==> forall k :: init - 1 <= k < i.value - 1 ==> !Fits(p, s[k])
    requires i.None? ==> forall k :: init - 1 <= k < |s| ==> !Fits(p, s[k])
    ensures Position(p, s, init) == i
  {
    hide Fits;
  }

  /** A match that does not touch the end stays the same when more is read. */
  lemma FindInPrefix(p: Pattern, s: string, more: string, init: nat)
    requires 1 <= init <= |s| + 1
    requires Found(p, s, init).Some? && Found(p, s, init).value.last < |s|
    ensures Found(p, s + more, init) == Found(p, s, init)
  {
    hide Fits;
    var i := Position(p, s, init);
    assert forall k :: 0 <= k < |s| ==> (s + more)[k] == s[k];
    PositionIs(p, s + more, init, i);
  }

  /** Positions are counted from wherever the text is taken to start. */
  lemma FindInSuffix(p: Pattern, s: string, from: nat, init: nat)
    requires from <= |s| && 1 <= init <= |s| - from + 1
    ensures Found(p, s, init + from) ==
            match Found(p, s[from..], init)
            case None => None
            case Some(m) => Some(Match(m.first + from, m.last + from, m.capture))
  {
    hide Fits;
    var i := Position(p, s[from..], init);
    assert forall k :: from <= k < |s| ==> s[k] == s[from..][k - from];
    if i.Some? {
      PositionIs(p, s, init + from, Some(i.value + from));
    } else {
      PositionIs(p, s, init + from, None);
    }
  }

  /** string.sub with positions counting from one, up to the end if there is no last one. */
  function Slice(s: string, a: nat, b: Option<nat>): string
    requires 1 <= a
  {
    var to := if b.None? || b.value > |s| then |s| else b.value;
    if a > to then "" else s[a - 1..to]
  }

  lemma SubInSuffix(s: string, from: nat, a: nat, b: Option<nat>)
    requires from <= |s| && 1 <= a
    ensures Slice(s[from..], a, b) == Slice(s, a + from, if b.None? then None else Some(b.value + from))
  {
  }

  // ---------- The file ----------

  /** A file: reading gives as many characters as asked for, or what is left, or nothing at its end. */
  class File {
    const contents: string
    var pos: nat

    constructor (contents: string)
      ensures this.contents == contents && pos == 0
    {
      this.contents, pos := contents, 0;
    }

    method Read(n: nat) returns (s: Option<string>)
      requires pos <= |contents|
      modifies this`pos
      ensures pos <= |contents| && old(pos) <= pos
      ensures s == None ==> pos == old(pos)
      ensures s == None <==> old(pos) == |contents|
      ensures s.Some? ==> s.value == contents[old(pos)..pos]
      ensures s.Some? ==> pos == if old(pos) + n <= |contents| then old(pos) + n else |contents|
    {
      if pos == |contents| {
        return None;
      }
      var to := if pos + n <= |contents| then pos + n else |contents|;
      s := Some(contents[pos..to]);
      pos := to;
    }
  }

  /** A window on the file. */
  class FileBuffer {
    const file: File
    const blockSize: nat
    var start: nat
    var buffer: string

    ghost predicate Valid()
      reads this, file
    {
      && blockSize >= 1
      && start + |buffer| == file.pos <= |file.contents|
      && buffer == file.contents[start..file.pos]
    }

    constructor (file: File, blockSize: nat)
      requires blockSize >= 1 && file.pos == 0
      ensures Valid() && this.file == file && start == 0 && buffer == ""
    {
      this.file, this.blockSize, start, buffer := file, blockSize, 0, "";
    }

    /** Drop whole blocks before `position`, which stays within the window. */
    method Truncate(position: nat)
      requires Valid() && start < position <= start + |buffer| + 1
      modifies this`start, this`buffer
      ensures Valid() && start < position <= start + |buffer| + 1 && start + |buffer| == old(start + |buffer|)
    {
      var p := position - start;
      if p > blockSize {
        var remove := blockSize * ((p - 1) / blockSize);
        WholeBlocks(blockSize, p - 1);
        assert file.contents[start..file.pos][remove..] == file.contents[start + remove..file.pos];
        buffer := buffer[remove..];
        start := start + remove;
      }
    }

    lemma WholeBlocks(b: nat, n: nat)
      requires b > 0
      ensures 0 <= b * (n / b) <= n
    {
    }

    /** The first match from `init` on; as much of the file is read as the search needs. */
    method Find(p: Pattern, init: nat) returns (m: Option<Match>)
      requires Valid() && start < init <= start + |buffer| + 1
      modifies this`buffer, file`pos
      ensures Valid() && old(|buffer|) <= |buffer|
      ensures m == Found(p, file.contents, init)
      ensures m.Some? ==> m.value.last <= start + |buffer|
      ensures m.None? ==> file.pos == |file.contents|
    {
      hide Found;
      while true
        invariant Valid() && old(|buffer|) <= |buffer|
        decreases |file.contents| - file.pos
      {
        m := Found(p, buffer, init - start);
        WindowMatch(p, init);
        if m.None? || m.value.last == |buffer| {
          var s := file.Read(blockSize);
          if s.None? {
            if m.Some? {
              m := Some(Match(m.value.first + start, m.value.last + start, m.value.capture));
            }
            return;
          }
          assert buffer + s.value == file.contents[start..file.pos];
          buffer := buffer + s.value;
        } else {
          m := Some(Match(m.value.first + start, m.value.last + start, m.value.capture));
          return;
        }
      }
    }

    /** What is found in the window is what is found in the whole file, unless more of it may change that. */
    lemma WindowMatch(p: Pattern, init: nat)
      requires Valid() && start < init <= start + |buffer| + 1
      ensures var m := Found(p, buffer, init - start);
              (m.Some? && m.value.last < |buffer|) || file.pos == |file.contents| ==>
                Found(p, file.contents, init) ==
                match m
                case None => None
                case Some(f) => Some(Match(f.first + start, f.last + start, f.capture))
    {
      hide Found;
      var rest := file.contents[start..];
      assert rest == buffer + file.contents[file.pos..];
      var m := Found(p, buffer, init - start);
      if m.Some? && m.value.last < |buffer| {
        FindInPrefix(p, buffer, file.contents[file.pos..], init - start);
      } else if file.pos == |file.contents| {
        assert rest == buffer;
      }
      FindInSuffix(p, file.contents, start, init - start);
    }

    /** Extend the buffer so that more can be seen. */
    method Extend(offset: nat)
      requires Valid()
      modifies this`buffer, file`pos
      ensures Valid() && old(|buffer|) <= |buffer| && file.pos >= old(file.pos)
      ensures offset <= start + |buffer| || file.pos == |file.contents|
    {
      var extra := offset - |buffer| - start;
      if extra > 0 {
        var size := blockSize * ((extra + blockSize - 1) / blockSize);
        EnoughBlocks(blockSize, extra);
        var s := file.Read(size);
        if s.None? {
          return;
        }
        assert buffer + s.value == file.contents[start..file.pos];
        buffer := buffer + s.value;
      }
    }

    lemma EnoughBlocks(b: nat, extra: nat)
      requires b > 0 && extra > 0
      ensures b * ((extra + b - 1) / b) >= extra
    {
      var n := extra + b - 1;
      assert n == b * (n / b) + n % b && n % b < b;
    }

    /** The characters from `a` to `b`, or to the end of the file, whatever has been read of it so far. */
    method Sub(a: nat, b: Option<nat>) returns (s: string)
      requires Valid() && start < a && (b.Some? ==> start <= b.value)
      requires b.None? ==> file.pos == |file.contents|
      modifies this`buffer, file`pos
      ensures Valid() && old(|buffer|) <= |buffer|
      ensures s == Slice(file.contents, a, b) && file.pos >= old(file.pos)
      ensures b.Some? && b.value <= |file.contents| ==> b.value <= start + |buffer|
    {
      if b.Some? {
        Extend(b.value);
      }
      s := Slice(buffer, a - start, if b.None? then None else Some(b.value - start));
      WindowSlice(a, b);
    }

    lemma WindowSlice(a: nat, b: Option<nat>)
      requires Valid() && start < a && (b.Some? ==> start <= b.value)
      requires file.pos == |file.contents| || (b.Some? && b.value <= start + |buffer|)
      ensures Slice(buffer, a - start, if b.None? then None else Some(b.value - start)) == Slice(file.contents, a, b)
    {
      var bb := if b.None? then None else Some(b.value - start);
      SubInSuffix(file.contents, start, a - start, bb);
      var rest := file.contents[start..];
      assert rest == buffer + file.contents[file.pos..];
      if file.pos == |file.contents| {
        assert rest == buffer;
      } else if a - start <= b.value - start {
        assert rest[a - start - 1..b.value - start] == buffer[a - start - 1..b.value - start];
      }
    }
  }

  // ---------- Values ----------

  /** All line endings are read as line feeds. */
  function Eols(s: string): string {
    if s == "" then ""
    else if s[0] == '\r' then
      ['\n'] + Eols(if |s| > 1 && s[1] == '\n' then s[2..] else s[1..])
    else [s[0]] + Eols(s[1..])
  }

  /** gsub('""', '"'), from left to right. */
  function Undouble(s: string): string {
    if |s| > 1 && s[0] == '"' && s[1] == '"' then ['"'] + Undouble(s[2..])
    else if s == "" then ""
    else [s[0]] + Undouble(s[1..])
  }

  /** fix_quotes: the trailing quote is stripped. */
  function FixQuotes(s: string): string {
    var u := Undouble(s);
    if u == "" then "" else u[..|u| - 1]
  }

  predicate IsSpace(c: char) {
    c == ' ' || c == '\t' || c == '\n' || c == '\U{0b}' || c == '\U{0c}' || c == '\r'
  }

  function TrimLeft(s: string): string {
    if s != "" && IsSpace(s[0]) then TrimLeft(s[1..]) else s
  }

  function TrimRight(s: string): string {
    if s != "" && IsSpace(s[|s| - 1]) then TrimRight(s[..|s| - 1]) else s
  }

  /** trim_space. */
  function Trim(s: string): string {
    TrimRight(TrimLeft(s))
  }

  // ---------- Records ----------

  const NEWLINES := {'\n', '\r'}

  /** A field with the character that ends it, if any, and how far it reaches with that. */
  datatype Step = Field(value: string, ended: Option<char>, size: nat) | UnmatchedQuote

  /** The position of the quote that closes a quoted field, whose text starts `s`. */
  function ClosingQuote(s: string, init: nat): (q: Option<nat>)
    requires 1 <= init <= |s| + 1
    ensures q.Some? ==> init <= q.value <= |s|
    decreases |s| + 1 - init
  {
    match Found(Quote, s, init)
    case None => None
    case Some(m) => if m.capture == Some('"') then ClosingQuote(s, m.last + 1) else Some(m.last)
  }

  lemma ClosingQuoteStep(s: string, init: nat)
    requires 1 <= init <= |s| + 1
    ensures ClosingQuote(s, init) ==
            match Found(Quote, s, init)
            case None => None
            case Some(m) => if m.capture == Some('"') then ClosingQuote(s, m.last + 1) else Some(m.last)
  {
  }

  /** A carriage return and a line feed count as one line ending. */
  function PastEnding(s: string, last: nat): (n: nat)
    requires 1 <= last <= |s|
    ensures last <= n <= |s|
  {
    if s[last - 1] == '\r' && last < |s| && s[last] == '\n' then last + 1 else last
  }

  function QuotedField(s: string, seps: set<char>): (f: Step)
    ensures f.Field? && f.ended.Some? ==> 0 < f.size <= |s|
  {
    match ClosingQuote(s, 1)
    case None => UnmatchedQuote
    case Some(q) =>
      match Found(AfterSpaces, s, q + 1)
      case None => Field(FixQuotes(Eols(Slice(s, 1, None))), None, |s|)
      case Some(m) =>
        if m.capture.value !in seps + NEWLINES then UnmatchedQuote
        else Field(FixQuotes(Eols(Slice(s, 1, Some(m.first - 1)))), m.capture, PastEnding(s, m.last))
  }

  function PlainField(s: string, seps: set<char>): (f: Step)
    ensures f.Field?
    ensures f.ended.Some? ==> 0 < f.size <= |s|
  {
    match Found(OneOf(seps + NEWLINES), s, 1)
    case None => Field(Trim(Eols(Slice(s, 1, None))), None, |s|)
    case Some(m) => Field(Trim(Eols(Slice(s, 1, Some(m.first - 1)))), m.capture, PastEnding(s, m.last))
  }

  function NextField(s: string, seps: set<char>): (f: Step)
    ensures f.Field? && f.ended.Some? ==> 0 < f.size <= |s|
  {
    if s != "" && s[0] == '"' then
      match QuotedField(s[1..], seps)
      case UnmatchedQuote => UnmatchedQuote
      case Field(value, ended, size) => Field(value, ended, size + 1)
    else PlainField(s, seps)
  }

  /** The records read, and whether reading was given up at an unmatched quote. */
  datatype Outcome = Outcome(records: seq<seq<string>>, unmatched: bool)

  function Before(records: seq<seq<string>>, o: Outcome): Outcome {
    Outcome(records + o.records, o.unmatched)
  }

  /** Is a record not a blank line? */
  predicate Counts(fields: seq<string>) {
    |fields| > 1 || (|fields| == 1 && fields[0] != "")
  }

  /** All records of `s`, the first of which has the given fields already. */
  function Parse(s: string, seps: set<char>, fields: seq<string>): Outcome
    decreases |s|
  {
    match NextField(s, seps)
    case UnmatchedQuote => Outcome([], true)
    case Field(value, ended, size) =>
      var all := fields + [value];
      if ended.None? then Outcome(if Counts(all) then [all] else [], false)
      else if ended.value in NEWLINES then
        Before(if Counts(all) then [all] else [], Parse(s[size..], seps, []))
      else Parse(s[size..], seps, all)
  }

  /** One field more; the records read before stay in front. */
  function Continued(s: string, seps: set<char>, fields: seq<string>, records: seq<seq<string>>): Outcome {
    var f := NextField(s, seps);
    if f.UnmatchedQuote? then Outcome(records, true)
    else
      var all := fields + [f.value];
      var more := if Counts(all) then records + [all] else records;
      if f.ended.None? then Outcome(more, false)
      else if f.ended.value in NEWLINES then Before(more, Parse(s[f.size..], seps, []))
      else Before(records, Parse(s[f.size..], seps, all))
  }

  lemma ParseStep(s: string, seps: set<char>, fields: seq<string>, records: seq<seq<string>>)
    ensures Before(records, Parse(s, seps, fields)) == Continued(s, seps, fields, records)
  {
    hide NextField, Parse;
    ParseUnfolds(s, seps, fields);
    var f := NextField(s, seps);
    if f.Field? {
      var all := fields + [f.value];
      assert records + [] == records;
      assert f.ended.Some? ==>
          Before(records, Before(if Counts(all) then [all] else [], Parse(s[f.size..], seps, []))) ==
          Before(if Counts(all) then records + [all] else records, Parse(s[f.size..], seps, []));
    }
  }

  lemma ParseUnfolds(s: string, seps: set<char>, fields: seq<string>)
    ensures var f := NextField(s, seps);
            Parse(s, seps, fields) ==
            if f.UnmatchedQuote? then Outcome([], true)
            else
              var all := fields + [f.value];
              var more := if Counts(all) then [all] else [];
              if f.ended.None? then Outcome(more, false)
              else if f.ended.value in NEWLINES then Before(more, Parse(s[f.size..], seps, []))
              else Parse(s[f.size..], seps, all)
  {
    hide NextField, Counts;
  }

  // ---------- Writing and reading again ----------

  function Doubled(f: string): string {
    if f == "" then ""
    else (if f[0] == '"' then ['"', '"'] else [f[0]]) + Doubled(f[1..])
  }

  /** A quoted field of section 2 of RFC 4180. */
  function Quoted(f: string): string {
    ['"'] + Doubled(f) + ['"']
  }

  predicate IsPlainText(f: string) {
    '\r' !in f
  }

  function RenderRecord(fields: seq<string>, sep: char): string
    requires fields != []
  {
    if |fields| == 1 then Quoted(fields[0]) else Quoted(fields[0]) + [sep] + RenderRecord(fields[1..], sep)
  }

  predicate IsLineEnding(eol: string) {
    eol == "\n" || eol == "\r" || eol == "\r\n"
  }

  /** Records with a line ending between them, and perhaps one at the end. */
  function Render(records: seq<seq<string>>, sep: char, eol: string, final: bool): string
    requires forall i :: 0 <= i < |records| ==> records[i] != []
  {
    if records == [] then ""
    else if |records| == 1 then RenderRecord(records[0], sep) + if final then eol else ""
    else RenderRecord(records[0], sep) + (eol + Render(records[1..], sep, eol, final))
  }

  lemma AtQuote(s: string, init: nat)
    requires 1 <= init <= |s| && s[init - 1] == '"'
    ensures ClosingQuote(s, init) == if init < |s| && s[init] == '"' then ClosingQuote(s, init + 2) else Some(init)
  {
  }

  lemma NotAtQuote(s: string, init: nat)
    requires 1 <= init <= |s| && s[init - 1] != '"'
    ensures ClosingQuote(s, init) == ClosingQuote(s, init + 1)
  {
  }

  /** The closing quote of a quoted field is found behind its text. */
  lemma {:induction false} ClosingQuoteFound(before: string, f: string, rest: string)
    requires rest != "" ==> rest[0] != '"'
    ensures ClosingQuote(before + Doubled(f) + (['"'] + rest), |before| + 1) == Some(|before| + |Doubled(f)| + 1)
    decreases |f|
  {
    hide ClosingQuote;
    var s := before + Doubled(f) + (['"'] + rest);
    var init := |before| + 1;
    if f == "" {
      AtQuote(s, init);
    } else {
      var first := if f[0] == '"' then ['"', '"'] else [f[0]];
      assert Doubled(f) == first + Doubled(f[1..]);
      assert s == (before + first) + Doubled(f[1..]) + (['"'] + rest);
      ClosingQuoteFound(before + first, f[1..], rest);
      assert s[init - 1] == first[0];
      if f[0] == '"' {
        assert s[init] == first[1];
        AtQuote(s, init);
      } else {
        NotAtQuote(s, init);
      }
    }
  }

  lemma {:induction false} UndoubleDoubled(f: string)
    ensures Undouble(Doubled(f) + ['"']) == f + ['"']
  {
    if f != "" {
      UndoubleDoubled(f[1..]);
      var rest := Doubled(f[1..]) + ['"'];
      if f[0] == '"' {
        assert Doubled(f) + ['"'] == ['"', '"'] + rest;
        assert (['"', '"'] + rest)[2..] == rest;
      } else {
        assert Doubled(f) + ['"'] == [f[0]] + rest;
        assert ([f[0]] + rest)[1..] == rest;
      }
      assert f == [f[0]] + f[1..];
    }
  }

  lemma {:induction false} EolsOfPlainText(s: string)
    requires IsPlainText(s)
    ensures Eols(s) == s
  {
    if s != "" {
      EolsOfPlainText(s[1..]);
      assert s == [s[0]] + s[1..];
    }
  }

  lemma {:induction false} DoubledIsPlain(f: string)
    requires IsPlainText(f)
    ensures IsPlainText(Doubled(f))
  {
    if f != "" {
      assert f == [f[0]] + f[1..];
      DoubledIsPlain(f[1..]);
    }
  }

  lemma QuotedValue(f: string)
    requires IsPlainText(f)
    ensures FixQuotes(Eols(Doubled(f) + ['"'])) == f
  {
    DoubledIsPlain(f);
    EolsOfPlainText(Doubled(f) + ['"']);
    UndoubleDoubled(f);
  }

  /** A quoted field is read back, and so is what ends it. */
  lemma QuotedFieldRead(f: string, rest: string, seps: set<char>)
    requires IsPlainText(f) && (rest != "" ==> rest[0] in seps + NEWLINES && rest[0] != ' ' && rest[0] != '"')
    ensures var n := NextField(Quoted(f) + rest, seps);
            && n.Field? && n.value == f
            && (rest == "" ==> n.ended == None)
            && (rest != "" ==> n.ended == Some(rest[0]) && n.size == |Quoted(f)| + PastEnding(rest, 1))
  {
    hide ClosingQuote, Doubled, FixQuotes, Eols;
    var s := (Quoted(f) + rest)[1..];
    assert s == "" + Doubled(f) + (['"'] + rest);
    ClosingQuoteFound("", f, rest);
    QuotedValue(f);
    var q := |Doubled(f)| + 1;
    assert Slice(s, 1, Some(q)) == Doubled(f) + ['"'];
    if rest == "" {
      assert Slice(s, 1, None) == Doubled(f) + ['"'];
    } else {
      assert s[q] == rest[0];
      PositionIs(AfterSpaces, s, q + 1, Some(q + 1));
      assert q + 1 < |s| ==> s[q + 1] == rest[1];
    }
  }

  /** What a reader makes of a record that is complete, and of what follows it. */
  function Emitted(fields: seq<string>): seq<seq<string>> {
    if Counts(fields) then [fields] else []
  }

  predicate AllPlain(fields: seq<string>) {
    forall i :: 0 <= i < |fields| ==> IsPlainText(fields[i])
  }

  predicate IsSeparator(sep: char, seps: set<char>) {
    sep in seps && sep !in NEWLINES && sep != ' ' && sep != '"'
  }

  /** The last record of a file without a line ending at its end. */
  lemma {:induction false} LastRecordRead(fields: seq<string>, sep: char, seps: set<char>, sofar: seq<string>)
    requires fields != [] && AllPlain(fields) && IsSeparator(sep, seps)
    ensures Parse(RenderRecord(fields, sep), seps, sofar) == Outcome(Emitted(sofar + fields), false)
    decreases |fields|
  {
    hide NextField, Quoted;
    if |fields| == 1 {
      QuotedFieldRead(fields[0], "", seps);
      assert Quoted(fields[0]) + "" == Quoted(fields[0]);
      assert sofar + fields == sofar + [fields[0]];
    } else {
      var rest := RenderRecord(fields[1..], sep);
      FieldThen(fields[0], sep, rest, seps, sofar);
      LastRecordRead(fields[1..], sep, seps, sofar + [fields[0]]);
      assert sofar + fields == (sofar + [fields[0]]) + fields[1..];
    }
  }

  /** A field with a separator behind it. */
  lemma FieldThen(f: string, sep: char, rest: string, seps: set<char>, sofar: seq<string>)
    requires IsPlainText(f) && IsSeparator(sep, seps)
    ensures Parse(Quoted(f) + [sep] + rest, seps, sofar) == Parse(rest, seps, sofar + [f])
  {
    hide NextField, Quoted;
    var s := Quoted(f) + [sep] + rest;
    assert s == Quoted(f) + ([sep] + rest);
    QuotedFieldRead(f, [sep] + rest, seps);
    assert s[|Quoted(f)| + 1..] == rest;
  }

  /** A field with a line ending behind it. */
  lemma FieldThenLine(f: string, eol: string, rest: string, seps: set<char>, sofar: seq<string>)
    requires IsPlainText(f) && IsLineEnding(eol) && (rest != "" ==> rest[0] != '\n')
    ensures Parse(Quoted(f) + (eol + rest), seps, sofar) == Before(Emitted(sofar + [f]), Parse(rest, seps, []))
  {
    hide NextField, Quoted;
    var s := Quoted(f) + (eol + rest);
    QuotedFieldRead(f, eol + rest, seps);
    assert s[|Quoted(f)| + |eol|..] == rest;
  }

  /** A record with a line ending behind it. */
  lemma {:induction false} RecordRead(
    fields: seq<string>, sep: char, seps: set<char>, sofar: seq<string>, eol: string, rest: string)
    requires fields != [] && AllPlain(fields) && IsSeparator(sep, seps)
    requires IsLineEnding(eol) && (rest != "" ==> rest[0] != '\n')
    ensures Parse(RenderRecord(fields, sep) + (eol + rest), seps, sofar) ==
            Before(Emitted(sofar + fields), Parse(rest, seps, []))
    decreases |fields|
  {
    hide Parse, Quoted;
    if |fields| == 1 {
      FieldThenLine(fields[0], eol, rest, seps, sofar);
      assert sofar + fields == sofar + [fields[0]];
    } else {
      var more := RenderRecord(fields[1..], sep) + (eol + rest);
      assert RenderRecord(fields, sep) + (eol + rest) == Quoted(fields[0]) + [sep] + more;
      FieldThen(fields[0], sep, more, seps, sofar);
      RecordRead(fields[1..], sep, seps, sofar + [fields[0]], eol, rest);
      assert sofar + fields == (sofar + [fields[0]]) + fields[1..];
    }
  }

  predicate AreRecords(records: seq<seq<string>>) {
    forall i :: 0 <= i < |records| ==> Counts(records[i]) && AllPlain(records[i])
  }

  lemma StartsWithQuote(records: seq<seq<string>>, sep: char, eol: string, final: bool)
    requires AreRecords(records) && records != []
    ensures Render(records, sep, eol, final) != "" && Render(records, sep, eol, final)[0] == '"'
  {
    assert RenderRecord(records[0], sep)[0] == '"';
  }

  lemma NothingRead(seps: set<char>)
    ensures Parse("", seps, []) == Outcome([], false)
  {
  }

  /**
   Records without carriage returns, none of them a single empty field, are read back from
   their fully quoted rendering, whatever the line ending and whether there is one at the end.
   */
  lemma {:induction false} ReadsBack(records: seq<seq<string>>, sep: char, seps: set<char>, eol: string, final: bool)
    requires AreRecords(records) && IsSeparator(sep, seps) && IsLineEnding(eol)
    ensures Parse(Render(records, sep, eol, final), seps, []) == Outcome(records, false)
    decreases |records|
  {
    hide Parse, RenderRecord;
    NothingRead(seps);
    if records != [] {
      assert [] + records[0] == records[0];
      assert records == [records[0]] + records[1..];
      if |records| > 1 {
        ReadsBack(records[1..], sep, seps, eol, final);
        StartsWithQuote(records[1..], sep, eol, final);
        RecordRead(records[0], sep, seps, [], eol, Render(records[1..], sep, eol, final));
      } else if final {
        RecordRead(records[0], sep, seps, [], eol, "");
        assert eol + "" == eol;
      } else {
        LastRecordRead(records[0], sep, seps, []);
        assert RenderRecord(records[0], sep) + "" == RenderRecord(records[0], sep);
      }
    }
  }

  // ---------- The iterator ----------

  class Reader {
    const buffer: FileBuffer
    const seps: set<char>
    var fieldStart: nat

    ghost predicate Valid()
      reads this, buffer, buffer.file
    {
      && buffer.Valid()
      && buffer.start < fieldStart <= buffer.start + |buffer.buffer| + 1
    }

    /** The text from the start of the current field on. */
    ghost function Rest(): string
      requires Valid()
      reads this, buffer, buffer.file
    {
      buffer.file.contents[fieldStart - 1..]
    }

    constructor (buffer: FileBuffer, seps: set<char>)
      requires buffer.Valid() && buffer.start == 0
      ensures Valid() && this.buffer == buffer && this.seps == seps && Rest() == buffer.file.contents
    {
      this.buffer, this.seps, fieldStart := buffer, seps, 1;
    }

    method Advance(n: nat)
      requires Valid() && fieldStart + n <= buffer.start + |buffer.buffer| + 1
      modifies this, buffer`start, buffer`buffer
      ensures Valid() && fieldStart == old(fieldStart) + n && Rest() == old(Rest()[n..])
      ensures buffer.start + |buffer.buffer| == old(buffer.start + |buffer.buffer|)
    {
      fieldStart := fieldStart + n;
      buffer.Truncate(fieldStart);
    }

    method FieldSub(a: nat, b: Option<nat>) returns (s: string)
      requires Valid() && 1 <= a && (b.None? ==> buffer.file.pos == |buffer.file.contents|)
      modifies buffer`buffer, buffer.file`pos
      ensures Valid() && Rest() == old(Rest()) && s == Slice(Rest(), a, b)
      ensures buffer.start == old(buffer.start) && old(|buffer.buffer|) <= |buffer.buffer|
      ensures b.Some? && b.value <= |Rest()| ==> fieldStart - 1 + b.value <= buffer.start + |buffer.buffer|
      ensures buffer.file.pos >= old(buffer.file.pos)
    {
      SubInSuffix(buffer.file.contents, fieldStart - 1, a, b);
      s := buffer.Sub(a + fieldStart - 1, if b.None? then None else Some(b.value + fieldStart - 1));
    }

    method FieldFind(p: Pattern, init: nat) returns (m: Option<Match>)
      requires Valid() && 1 <= init && fieldStart + init <= buffer.start + |buffer.buffer| + 2
      modifies buffer`buffer, buffer.file`pos
      ensures Valid() && Rest() == old(Rest()) && buffer.start == old(buffer.start)
      ensures init <= |Rest()| + 1 && m == Found(p, Rest(), init)
      ensures m.Some? ==> fieldStart - 1 + m.value.last <= buffer.start + |buffer.buffer|
      ensures m.None? ==> buffer.file.pos == |buffer.file.contents|
    {
      hide Found;
      FindInSuffix(p, buffer.file.contents, fieldStart - 1, init);
      m := buffer.Find(p, init + fieldStart - 1);
      if m.Some? {
        m := Some(Match(m.value.first - fieldStart + 1, m.value.last - fieldStart + 1, m.value.capture));
      }
    }

    /** The quote that closes the field, past all pairs of quotes. */
    method FindClosingQuote() returns (q: Option<nat>)
      requires Valid()
      modifies buffer`buffer, buffer.file`pos
      ensures Valid() && Rest() == old(Rest()) && buffer.start == old(buffer.start)
      ensures q == ClosingQuote(Rest(), 1)
      ensures q.Some? ==> fieldStart - 1 + q.value <= buffer.start + |buffer.buffer|
    {
      hide Found, ClosingQuote;
      ghost var rest := Rest();
      var current := 0;
      while true
        invariant 0 <= current && Valid() && Rest() == rest && buffer.start == old(buffer.start)
        invariant fieldStart + current <= buffer.start + |buffer.buffer| + 1 && current <= |rest|
        invariant ClosingQuote(rest, current + 1) == ClosingQuote(rest, 1)
        decreases |rest| - current
      {
        ClosingQuoteStep(rest, current + 1);
        var m := FieldFind(Quote, current + 1);
        if m.None? {
          return None;
        }
        current := m.value.last;
        if m.value.capture != Some('"') {
          return Some(current);
        }
      }
    }

    /** Read a quoted field, from behind its quote, up to its separator. */
    method ReadQuoted() returns (value: string, sep: Option<char>, sepEnd: nat, unmatched: bool)
      requires Valid()
      modifies buffer`buffer, buffer.file`pos
      ensures Valid() && Rest() == old(Rest()) && buffer.start == old(buffer.start)
      ensures unmatched <==> QuotedField(Rest(), seps).UnmatchedQuote?
      ensures !unmatched ==> QuotedField(Rest(), seps).value == value && QuotedField(Rest(), seps).ended == sep
      ensures !unmatched && sep.Some? ==> EndsAt(sep.value, sepEnd) && QuotedField(Rest(), seps).size == PastEnding(Rest(), sepEnd)
    {
      hide Found, ClosingQuote, FixQuotes, Eols, Slice, PastEnding;
      value, sep, sepEnd, unmatched := "", None, 0, false;
      var q := FindClosingQuote();
      if q.None? {
        unmatched := true;
        return;
      }
      var m := FieldFind(AfterSpaces, q.value + 1);
      if m.Some? && m.value.capture.value !in seps + NEWLINES {
        unmatched := true;
        return;
      }
      value := FieldSub(1, if m.None? then None else Some(m.value.first - 1));
      value := FixQuotes(Eols(value));
      if m.Some? {
        sep, sepEnd := m.value.capture, m.value.last;
      }
    }

    /** The character at `last` is the one found, and in the window. */
    ghost predicate EndsAt(c: char, last: nat)
      requires Valid()
      reads this, buffer, buffer.file
    {
      && 1 <= last <= |Rest()| && Rest()[last - 1] == c
      && fieldStart - 1 + last <= buffer.start + |buffer.buffer|
    }

    /** Read a field that is not quoted, up to its separator. */
    method ReadPlain() returns (value: string, sep: Option<char>, sepEnd: nat)
      requires Valid()
      modifies buffer`buffer, buffer.file`pos
      ensures Valid() && Rest() == old(Rest()) && buffer.start == old(buffer.start)
      ensures PlainField(Rest(), seps).value == value && PlainField(Rest(), seps).ended == sep
      ensures sep.Some? ==> EndsAt(sep.value, sepEnd) && PlainField(Rest(), seps).size == PastEnding(Rest(), sepEnd)
    {
      hide Found, Trim, Eols, Slice, PastEnding;
      sep, sepEnd := None, 0;
      var m := FieldFind(OneOf(seps + NEWLINES), 1);
      value := FieldSub(1, if m.None? then None else Some(m.value.first - 1));
      value := Trim(Eols(value));
      if m.Some? {
        sep, sepEnd := m.value.capture, m.value.last;
      }
    }

    /** Read a field; the reader stands behind its opening quote, if it has one, then. */
    method ReadField() returns (value: string, sep: Option<char>, sepEnd: nat, unmatched: bool)
      requires Valid()
      modifies this, buffer`start, buffer`buffer, buffer.file`pos
      ensures Valid() && fieldStart >= old(fieldStart)
      ensures unmatched <==> NextField(old(Rest()), seps).UnmatchedQuote?
      ensures !unmatched ==> NextField(old(Rest()), seps).value == value && NextField(old(Rest()), seps).ended == sep
      ensures !unmatched && sep.Some? ==>
                && EndsAt(sep.value, sepEnd)
                && old(Rest()[NextField(Rest(), seps).size..]) == Rest()[PastEnding(Rest(), sepEnd)..]
    {
      hide QuotedField, PlainField;
      ghost var rest := Rest();
      var first := FieldSub(1, Some(1));
      assert first == ['"'] <==> rest != "" && rest[0] == '"';
      if first == ['"'] {
        Advance(1);
        value, sep, sepEnd, unmatched := ReadQuoted();
      } else {
        value, sep, sepEnd := ReadPlain();
        unmatched := false;
      }
    }

    /** Go on behind the separator, or the line ending. */
    method Skip(sep: char, sepEnd: nat)
      requires Valid() && EndsAt(sep, sepEnd)
      modifies this, buffer`start, buffer`buffer, buffer.file`pos
      ensures Valid() && Rest() == old(Rest()[PastEnding(Rest(), sepEnd)..])
    {
      var end := sepEnd;
      if sep == '\r' {
        var next := FieldSub(sepEnd + 1, Some(sepEnd + 1));
        assert next == ['\n'] <==> sepEnd < |Rest()| && Rest()[sepEnd] == '\n';
        if next == "\n" {
          end := end + 1;
        }
      }
      Advance(end);
    }

    /** Iterate through all records. */
    method ReadAll() returns (o: Outcome)
      requires Valid()
      modifies this, buffer`start, buffer`buffer, buffer.file`pos
      ensures o == Parse(old(Rest()), seps, [])
    {
      hide NextField, Parse, PastEnding;
      var records: seq<seq<string>>, fields: seq<string> := [], [];
      ghost var text := Rest();
      assert Before([], Parse(text, seps, [])) == Parse(text, seps, []);
      while true
        invariant Valid() && Before(records, Parse(Rest(), seps, fields)) == Parse(text, seps, [])
        decreases |Rest()|
      {
        ParseStep(Rest(), seps, fields, records);
        var value, sep, sepEnd, unmatched := ReadField();
        if unmatched {
          return Outcome(records, true);
        }
        fields := fields + [value];
        if sep.None? || sep.value in NEWLINES {
          if Counts(fields) {
            records := records + [fields];
          }
          fields := [];
        }
        if sep.None? {
          return Outcome(records, false);
        }
        Skip(sep.value, sepEnd);
      }
    }
  }

  /** Whatever the size of the blocks it is read in, a file gives the records of its whole text. */
  method ReadFile(contents: string, blockSize: nat, seps: set<char>) returns (o: Outcome)
    requires blockSize >= 1
    ensures o == Parse(contents, seps, [])
  {
    var file := new File(contents);
    var buffer := new FileBuffer(file, blockSize);
    var reader := new Reader(buffer, seps);
    o := reader.ReadAll();
  }
}
