/**
 The JavaScript minifier. What it does with a pair of characters of lookahead is defined
 here without any: the text is a sequence of tokens with blanks between them, and the
 minifier replaces these blanks only.
 */
module Jsmin {
  import opened Options
  import Bytes

  const EOF := -1
  const NL := 0x0a
  const SP := 0x20
  const SLASH := 0x2f
  const STAR := 0x2a
  const ESCAPE := 0x5c

  datatype Error = UnterminatedComment | UnterminatedString | UnterminatedSet | UnterminatedRegexp

  // ---------- Characters ----------

  /** A char of C as an int; it depends on the platform whether there are negative ones. */
  function Widened(b: Bytes.byte, signed: bool): int {
    if signed && b >= 0x80 then b - 0x100 else b
  }

  /** Control characters become blanks. */
  function Cleaned(c: int): int {
    if c >= SP || c == NL || c == EOF then c else if c == 0x0d then NL else SP
  }

  /** The characters that _get returns one after the other. */
  function Chars(s: Bytes.bytes, signed: bool): (r: seq<int>)
    ensures |r| == |s|
    ensures forall i :: 0 <= i < |r| ==> r[i] == Cleaned(Widened(s[i], signed))
  {
    seq(|s|, i requires 0 <= i < |s| => Cleaned(Widened(s[i], signed)))
  }

  predicate IsBlank(c: int) {
    c == SP || c == NL
  }

  predicate IsAlphanum(c: int) {
    0x61 <= c <= 0x7a || 0x30 <= c <= 0x39 || 0x41 <= c <= 0x5a || c == 0x5f || c == 0x24 || c == ESCAPE || c > 126
  }

  predicate IsQuote(c: int) {
    c == 0x27 || c == 0x22 || c == 0x60
  }

  /** + - * / */
  predicate IsOperator(c: int) {
    c == 0x2b || c == 0x2d || c == STAR || c == SLASH
  }

  /** Behind one of ( , = : [ ! & | ? + - ~ * / { } ; a slash starts a regular expression. */
  predicate PrecedesRegexp(c: int) {
    c in {0x28, 0x2c, 0x3d, 0x3a, 0x5b, 0x21, 0x26, 0x7c, 0x3f, 0x2b, 0x2d, 0x7e, STAR, SLASH, 0x7b, 0x7d, 0x3b}
  }

  /** Before one of { [ ( + - ! ~ a line end is kept. */
  predicate StartsLine(c: int) {
    c in {0x7b, 0x5b, 0x28, 0x2b, 0x2d, 0x21, 0x7e}
  }

  /** Behind one of } ] ) + - and the quotes a line end is looked at. */
  predicate EndsLine(c: int) {
    c in {0x7d, 0x5d, 0x29, 0x2b, 0x2d} || IsQuote(c)
  }

  // ---------- Scanning ----------

  function At(r: seq<int>, i: nat): int {
    if i < |r| then r[i] else EOF
  }

  function Past(r: seq<int>, i: nat): nat {
    if i < |r| then i + 1 else i
  }

  /** A character and the position behind it. */
  datatype Read = Read(c: int, i: nat)

  /** A comment up to the end of the line is read as this end. */
  function LineComment(r: seq<int>, i: nat): (d: Read)
    requires i <= |r|
    ensures i <= d.i <= |r| && (d.c == EOF || (d.c <= NL && i < d.i && d.c == r[d.i - 1]))
    decreases |r| - i
  {
    if At(r, i) <= NL then Read(At(r, i), Past(r, i)) else LineComment(r, i + 1)
  }

  function BlockComment(r: seq<int>, i: nat): (end: Result<nat, Error>)
    ensures end.Ok? ==> i < end.value <= |r|
    ensures end.Err? ==> end.error == UnterminatedComment
    decreases |r| - i
  {
    if At(r, i) == EOF then Err(UnterminatedComment)
    else if At(r, i) == STAR && At(r, i + 1) == SLASH then Ok(i + 2)
    else BlockComment(r, i + 1)
  }

  /** The next character outside comments. */
  function Next(r: seq<int>, i: nat): (d: Result<Read, Error>)
    requires i <= |r|
    ensures d.Ok? ==> i <= d.value.i <= |r| && (d.value.c == EOF || i < d.value.i)
  {
    var c := At(r, i);
    if c == SLASH && At(r, i + 1) == SLASH then Ok(LineComment(r, i + 1))
    else if c == SLASH && At(r, i + 1) == STAR then
      match BlockComment(r, i + 2)
      case Err(e) => Err(e)
      case Ok(j) => Ok(Read(SP, j))
    else Ok(Read(c, Past(r, i)))
  }

  /** The position behind a string literal. */
  function StringEnd(r: seq<int>, i: nat, quote: int): (end: Result<nat, Error>)
    requires quote != EOF
    ensures end.Ok? ==> i < end.value <= |r| && r[end.value - 1] == quote
    ensures end.Ok? ==> forall k :: i <= k < end.value ==> r[k] != EOF
    decreases |r| - i
  {
    var c := At(r, i);
    if c == quote then Ok(i + 1)
    else if c == ESCAPE then if At(r, i + 1) == EOF then Err(UnterminatedString) else StringEnd(r, i + 2, quote)
    else if c == EOF then Err(UnterminatedString)
    else StringEnd(r, i + 1, quote)
  }

  /** The position behind a set in a regular expression. */
  function SetEnd(r: seq<int>, i: nat): (end: Result<nat, Error>)
    ensures end.Err? ==> end.error == UnterminatedSet
    ensures end.Ok? ==> i < end.value <= |r|
    ensures end.Ok? ==> forall k :: i <= k < end.value ==> r[k] != EOF
    decreases |r| - i
  {
    var c := At(r, i);
    if c == 0x5d then Ok(i + 1)
    else if c == ESCAPE then if At(r, i + 1) == EOF then Err(UnterminatedSet) else SetEnd(r, i + 2)
    else if c == EOF then Err(UnterminatedSet)
    else SetEnd(r, i + 1)
  }

  /** The position behind a regular expression. */
  function RegexpEnd(r: seq<int>, i: nat): (end: Result<nat, Error>)
    ensures end.Ok? ==> i < end.value <= |r| && r[end.value - 1] == SLASH
    ensures end.Ok? ==> At(r, end.value) != SLASH && At(r, end.value) != STAR
    ensures end.Ok? ==> forall k :: i <= k < end.value ==> r[k] != EOF
    decreases |r| - i
  {
    var c := At(r, i);
    if c == 0x5b then
      match SetEnd(r, i + 1)
      case Err(e) => Err(e)
      case Ok(j) => RegexpEnd(r, j)
    else if c == SLASH then if At(r, i + 1) == SLASH || At(r, i + 1) == STAR then Err(UnterminatedSet) else Ok(i + 1)
    else if c == ESCAPE then if At(r, i + 1) == EOF then Err(UnterminatedRegexp) else RegexpEnd(r, i + 2)
    else if c == EOF then Err(UnterminatedRegexp)
    else RegexpEnd(r, i + 1)
  }

  lemma RegexpStep(r: seq<int>, i: nat)
    ensures At(r, i) == 0x5b ==>
              var behind := SetEnd(r, i + 1);
              RegexpEnd(r, i) == if behind.Err? then Err(behind.error) else RegexpEnd(r, behind.value)
    ensures At(r, i) == SLASH ==>
              RegexpEnd(r, i) == if At(r, i + 1) in {SLASH, STAR} then Err(UnterminatedSet) else Ok(i + 1)
    ensures At(r, i) == ESCAPE ==>
              RegexpEnd(r, i) == if At(r, i + 1) == EOF then Err(UnterminatedRegexp) else RegexpEnd(r, i + 2)
    ensures At(r, i) == EOF ==> RegexpEnd(r, i) == Err(UnterminatedRegexp)
    ensures At(r, i) !in {0x5b, SLASH, ESCAPE, EOF} ==> RegexpEnd(r, i) == RegexpEnd(r, i + 1)
  {
    hide SetEnd;
  }

  lemma SetStep(r: seq<int>, i: nat)
    ensures At(r, i) == 0x5d ==> SetEnd(r, i) == Ok(i + 1)
    ensures At(r, i) == ESCAPE ==>
              SetEnd(r, i) == if At(r, i + 1) == EOF then Err(UnterminatedSet) else SetEnd(r, i + 2)
    ensures At(r, i) == EOF ==> SetEnd(r, i) == Err(UnterminatedSet)
    ensures At(r, i) !in {0x5d, ESCAPE, EOF} ==> SetEnd(r, i) == SetEnd(r, i + 1)
  {
  }

  lemma StringStep(r: seq<int>, i: nat, quote: int)
    requires IsQuote(quote)
    ensures At(r, i) == quote ==> StringEnd(r, i, quote) == Ok(i + 1)
    ensures At(r, i) == ESCAPE ==>
              StringEnd(r, i, quote) ==
              if At(r, i + 1) == EOF then Err(UnterminatedString) else StringEnd(r, i + 2, quote)
    ensures At(r, i) == EOF ==> StringEnd(r, i, quote) == Err(UnterminatedString)
    ensures At(r, i) !in {quote, ESCAPE, EOF} ==> StringEnd(r, i, quote) == StringEnd(r, i + 1, quote)
  {
  }

  // ---------- Tokens ----------

  /** A character or a literal, and the blanks before it; comments are among them. */
  datatype Token = Token(gap: seq<int>, first: int, rest: seq<int>, regexp: bool) {
    function Text(): seq<int> {
      [first] + rest
    }
  }

  /**
   * What the blanks `gap` behind `p` count for: a line end, a space, or nothing, which is `p` itself.
   * A line end stands for the beginning of the text.
   */
  function Held(p: int, gap: seq<int>): int {
    if p == NL || (NL in gap && (IsAlphanum(p) || EndsLine(p))) then NL
    else if gap != [] && IsAlphanum(p) then SP
    else p
  }

  /** What is written instead of the blanks between `p` and `c`. */
  function Separator(p: int, gap: seq<int>, c: int, regexp: bool): seq<int> {
    var held := Held(p, gap);
    if held == NL then if IsAlphanum(c) || StartsLine(c) then [NL] else []
    else if held == SP then if IsAlphanum(c) then [SP] else []
    else if regexp then if p == SLASH || p == STAR then [SP] else []
    else if gap != [] && IsOperator(p) && IsOperator(c) then [gap[|gap| - 1]]
    else []
  }

  /** The tokens from position `i` on, behind a token that ends with `p` and the blanks `gap`. */
  function Lex(r: seq<int>, p: int, gap: seq<int>, i: nat): Result<seq<Token>, Error>
    requires i <= |r|
    decreases 2 * (|r| - i) + 1
  {
    match Next(r, i)
    case Err(e) => Err(e)
    case Ok(d) => Lexed(r, p, gap, d.c, d.i)
  }

  /** The end of the literal that starts with `c` before position `i`, if it does. */
  function LiteralEnd(r: seq<int>, held: int, c: int, i: nat): (end: Result<nat, Error>)
    requires i <= |r|
    ensures end.Ok? ==> i <= end.value <= |r|
  {
    if IsQuote(c) then StringEnd(r, i, c)
    else if c == SLASH && PrecedesRegexp(held) then RegexpEnd(r, i)
    else Ok(i)
  }

  /** The same when `c` has been read. */
  function Lexed(r: seq<int>, p: int, gap: seq<int>, c: int, i: nat): Result<seq<Token>, Error>
    requires i <= |r|
    decreases 2 * (|r| - i) + if c == EOF then 0 else 2
  {
    if c == EOF then
      match Next(r, i)
      case Err(e) => Err(e)
      case Ok(_) => Ok([])
    else if IsBlank(c) then Lex(r, p, gap + [c], i)
    else
      match LiteralEnd(r, Held(p, gap), c, i)
      case Err(e) => Err(e)
      case Ok(end) =>
        match Lex(r, c, [], end)
        case Err(e) => Err(e)
        case Ok(more) => Ok([TokenOf(r, p, gap, c, i, end)] + more)
  }

  function TokenOf(r: seq<int>, p: int, gap: seq<int>, c: int, i: nat, end: nat): Token
    requires i <= end <= |r|
  {
    Token(gap, c, r[i..end], c == SLASH && PrecedesRegexp(Held(p, gap)))
  }

  /** The tokens with the shorter separators. */
  function Joined(p: int, tokens: seq<Token>): seq<int>
    decreases |tokens|
  {
    if tokens == [] then []
    else
      var t := tokens[0];
      Separator(p, t.gap, t.first, t.regexp) + t.Text() + Joined(t.first, tokens[1..])
  }

  /** Where the text starts: behind a byte order mark, if _peek can see one. */
  function Start(s: Bytes.bytes, signed: bool): (i: nat)
    ensures i <= |s|
  {
    if s != [] && Widened(s[0], signed) == 0xef then if |s| < 3 then |s| else 3 else 0
  }

  function Tokens(s: Bytes.bytes, signed: bool): Result<seq<Token>, Error> {
    Lex(Chars(s, signed), NL, [], Start(s, signed))
  }

  function Minified(s: Bytes.bytes, signed: bool): Result<seq<int>, Error> {
    match Tokens(s, signed)
    case Err(e) => Err(e)
    case Ok(tokens) => Ok(Joined(NL, tokens))
  }

  // ---------- The minifier ----------

  /** What is to be written from here on. */
  function Rest(r: seq<int>, p: int, gap: seq<int>, c: int, i: nat): Result<seq<int>, Error>
    requires i <= |r|
  {
    match Lexed(r, p, gap, c, i)
    case Err(e) => Err(e)
    case Ok(tokens) => Ok(Joined(p, tokens))
  }

  /** The same before the next character is read. */
  function RestFrom(r: seq<int>, p: int, gap: seq<int>, i: nat): Result<seq<int>, Error>
    requires i <= |r|
  {
    match Next(r, i)
    case Err(e) => Err(e)
    case Ok(d) => Rest(r, p, gap, d.c, d.i)
  }

  function Behind(out: seq<int>, rest: Result<seq<int>, Error>): Result<seq<int>, Error> {
    match rest
    case Err(e) => Err(e)
    case Ok(more) => Ok(out + more)
  }

  /** A character that is still to be written, unless it is a blank. */
  function Pending(a: int): seq<int> {
    if IsBlank(a) then [] else [a]
  }

  lemma BehindBehind(out: seq<int>, more: seq<int>, rest: Result<seq<int>, Error>)
    ensures Behind(out, Behind(more, rest)) == Behind(out + more, rest)
  {
    if rest.Ok? {
      assert out + (more + rest.value) == out + more + rest.value;
    }
  }

  lemma RestAtBlank(r: seq<int>, p: int, gap: seq<int>, c: int, i: nat)
    requires i <= |r| && IsBlank(c)
    ensures Rest(r, p, gap, c, i) == RestFrom(r, p, gap + [c], i)
  {
    hide Joined, Next;
    assert Lexed(r, p, gap, c, i) == Lex(r, p, gap + [c], i);
  }

  lemma RestAtEnd(r: seq<int>, p: int, gap: seq<int>, i: nat)
    requires i <= |r|
    ensures Rest(r, p, gap, EOF, i) == match Next(r, i) case Err(e) => Err(e) case Ok(_) => Ok([])
  {
  }

  /** A token is written whole, behind its separator. */
  lemma RestAtToken(r: seq<int>, p: int, gap: seq<int>, c: int, i: nat)
    requires i <= |r| && !IsBlank(c) && c != EOF
    ensures var end := LiteralEnd(r, Held(p, gap), c, i);
            && (end.Err? ==> Rest(r, p, gap, c, i) == Err(end.error))
            && (end.Ok? ==>
                  var t := TokenOf(r, p, gap, c, i, end.value);
                  Rest(r, p, gap, c, i) ==
                  Behind(Separator(p, gap, c, t.regexp) + t.Text(), RestFrom(r, c, [], end.value)))
  {
    hide Separator, Held, LiteralEnd, Next;
    var end := LiteralEnd(r, Held(p, gap), c, i);
    if end.Ok? {
      var more := Lex(r, c, [], end.value);
      if more.Ok? {
        var t := TokenOf(r, p, gap, c, i, end.value);
        assert ([t] + more.value)[1..] == more.value;
      }
    }
  }

  /** What remains when the separator before `c` has been written. */
  function Settled(r: seq<int>, p: int, gap: seq<int>, c: int, i: nat): Result<seq<int>, Error>
    requires i <= |r|
  {
    if c == EOF then Rest(r, p, gap, c, i)
    else if IsBlank(c) then RestFrom(r, p, gap + [c], i)
    else
      match LiteralEnd(r, Held(p, gap), c, i)
      case Err(e) => Err(e)
      case Ok(end) => Behind([c] + r[i..end], RestFrom(r, c, [], end))
  }

  lemma SeparatorFirst(r: seq<int>, p: int, gap: seq<int>, c: int, i: nat)
    requires i <= |r| && !(c == SLASH && PrecedesRegexp(Held(p, gap)))
    ensures Rest(r, p, gap, c, i) ==
            Behind(if c == EOF || IsBlank(c) then [] else Separator(p, gap, c, false), Settled(r, p, gap, c, i))
  {
    hide LiteralEnd, Separator, Held, PrecedesRegexp, Rest, RestFrom;
    if c == EOF {
      BehindNothing(Rest(r, p, gap, c, i));
    } else if IsBlank(c) {
      RestAtBlank(r, p, gap, c, i);
      BehindNothing(RestFrom(r, p, gap + [c], i));
    } else {
      RestAtToken(r, p, gap, c, i);
      var end := LiteralEnd(r, Held(p, gap), c, i);
      if end.Ok? {
        BehindBehind(Separator(p, gap, c, false), [c] + r[i..end.value], RestFrom(r, c, [], end.value));
      }
    }
  }

  lemma BehindNothing(rest: Result<seq<int>, Error>)
    ensures Behind([], rest) == rest
  {
    if rest.Ok? {
      assert [] + rest.value == rest.value;
    }
  }

  /** Which of the three actions is taken. */
  function Decision(a: int, b: int): (d: int)
    ensures 1 <= d <= 3 && (d == 3 ==> IsBlank(b))
  {
    if a == SP then if IsAlphanum(b) then 1 else 2
    else if a == NL then if StartsLine(b) then 1 else if b == SP then 3 else if IsAlphanum(b) then 1 else 2
    else if b == SP then if IsAlphanum(a) then 1 else 3
    else if b == NL then if EndsLine(a) || IsAlphanum(a) then 1 else 3
    else 1
  }

  /** What the fields mean: `a` is what the blanks `gap` behind `p` count for. */
  ghost predicate Linked(p: int, gap: seq<int>, a: int) {
    && Held(p, gap) == a && p != EOF && p != SP
    && (forall k :: 0 <= k < |gap| ==> IsBlank(gap[k]))
  }

  /** `y` is the last of the blanks before `b`, if there are any. */
  ghost predicate Follows(gap: seq<int>, y: int) {
    if gap == [] then !IsBlank(y) else y == gap[|gap| - 1]
  }

  /** What the first action writes. */
  function FirstAction(a: int, b: int, y: int): seq<int> {
    [a] + if IsBlank(y) && IsOperator(a) && IsOperator(b) then [y] else []
  }

  /** The decision does what the separator says. */
  lemma Decided(p: int, gap: seq<int>, a: int, b: int, y: int)
    requires Linked(p, gap, a) && Follows(gap, y) && a != EOF && !(b == SLASH && PrecedesRegexp(a))
    ensures var separator := if b == EOF || IsBlank(b) then [] else Separator(p, gap, b, false);
            && (Decision(a, b) == 1 ==> FirstAction(a, b, y) == Pending(a) + separator)
            && (Decision(a, b) == 2 ==> [] == Pending(a) + separator)
    ensures Decision(a, b) == 3 ==> IsBlank(b) && Linked(p, gap + [b], a)
    ensures Decision(a, b) != 3 && IsBlank(b) ==> Linked(p, gap + [b], b)
  {
    assert gap != [] ==> IsBlank(y);
  }

  class Minifier {
    const s: Bytes.bytes
    const signed: bool
    var i: nat
    var out: seq<int>
    var a: int
    var b: int
    var x: int
    var y: int
    /** What _get will return. */
    ghost const r: seq<int>

    ghost predicate Valid()
      reads this`i
    {
      r == Chars(s, signed) && i <= |s|
    }

    /** `x` is the last character that has been read outside literals, and `y` the one before. */
    ghost predicate Fetched(p: int, gap: seq<int>)
      reads this
    {
      a != EOF ==> Linked(p, gap, a) && Follows(gap, x)
    }

    ghost predicate Looking(p: int, gap: seq<int>)
      reads this
    {
      Linked(p, gap, a) && a != EOF && x == b && Follows(gap, y) && !(b == SLASH && PrecedesRegexp(a))
    }

    /** The whole output, as far as it can be told before the next character is read. */
    ghost function Awaited(p: int, gap: seq<int>): Result<seq<int>, Error>
      requires i <= |r|
      reads this
    {
      if a == EOF then Behind(out, Rest(r, p, gap, EOF, i)) else Behind(out + Pending(a), RestFrom(r, p, gap, i))
    }

    /** The same with the next character in `b`. */
    ghost function Outlook(p: int, gap: seq<int>): Result<seq<int>, Error>
      requires i <= |r|
      reads this
    {
      if a == EOF then Ok(out) else Behind(out + Pending(a), Rest(r, p, gap, b, i))
    }

    constructor (s: Bytes.bytes, signed: bool)
      ensures Valid() && this.s == s && this.signed == signed
      ensures i == 0 && out == [] && a == NL && x == EOF
    {
      this.s, this.signed := s, signed;
      r := Chars(s, signed);
      i, out := 0, [];
      a, b, x, y := NL, EOF, EOF, EOF;
    }

    method Get() returns (c: int)
      requires Valid()
      modifies this`i
      ensures Valid() && c == At(r, old(i)) && i == Past(r, old(i)) && old(i) <= i <= |r|
    {
      c := EOF;
      if i < |s| {
        c := Cleaned(Widened(s[i], signed));
        i := i + 1;
      }
    }

    /** _peek does not clean the character, which makes no difference to what it is compared with. */
    method Peek() returns (c: int)
      requires Valid()
      ensures c == SLASH <==> At(r, i) == SLASH
      ensures c == STAR <==> At(r, i) == STAR
    {
      c := if i < |s| then Widened(s[i], signed) else EOF;
    }

    method Put(c: int)
      modifies this`out
      ensures out == old(out) + [c]
    {
      out := out + [c];
    }

    method SkipLine() returns (c: int)
      requires Valid()
      modifies this`i
      ensures Valid() && Read(c, i) == LineComment(r, old(i))
    {
      ghost var end := LineComment(r, i);
      ghost var j := i;
      c := Get();
      while c > NL
        invariant Valid() && j <= i && c == At(r, j) && i == Past(r, j) && LineComment(r, j) == end
        decreases |s| - j
      {
        j := i;
        c := Get();
      }
    }

    method SkipBlock() returns (ok: bool)
      requires Valid()
      modifies this`i
      ensures Valid() && old(i) <= i && (ok <==> BlockComment(r, old(i)).Ok?)
      ensures ok ==> BlockComment(r, old(i)).value == i
    {
      ghost var end := BlockComment(r, i);
      var c := STAR;
      ok := true;
      while c != SP
        invariant Valid() && old(i) <= i && end == if c == SP then Ok(i) else BlockComment(r, i)
        decreases |s| - i, c != SP
      {
        var d := Get();
        if d == STAR {
          var after := Peek();
          if after == SLASH {
            d := Get();
            c := SP;
          }
        } else if d == EOF {
          ok := false;
          return;
        }
      }
    }

    method Fetch() returns (c: int, failed: Option<Error>)
      requires Valid()
      modifies this`i, this`x, this`y
      ensures Valid() && old(i) <= i <= |r|
      ensures failed.None? ==> Next(r, old(i)) == Ok(Read(c, i)) && x == c && y == old(x)
      ensures failed.Some? ==> Next(r, old(i)) == Err(failed.value)
    {
      failed := None;
      c := Get();
      if c == SLASH {
        var after := Peek();
        if after == SLASH {
          c := SkipLine();
        } else if after == STAR {
          after := Get();
          var ok := SkipBlock();
          if !ok {
            failed := Some(UnterminatedComment);
            return;
          }
          c := SP;
        }
      }
      y := x;
      x := c;
    }

    /** The string literal that `a` starts, but for its last quote. */
    method ScanString() returns (failed: Option<Error>)
      requires Valid() && i <= |r| && a == b && IsQuote(b)
      modifies this`i, this`a, this`out
      ensures Valid() && old(i) <= i <= |r|
      ensures failed.Some? ==> StringEnd(r, old(i), b) == Err(failed.value)
      ensures failed.None? ==> StringEnd(r, old(i), b) == Ok(i)
      ensures failed.None? ==> old(i) < i && a == b && out + [a] == old(out) + [b] + r[old(i)..i]
    {
      hide Valid, StringEnd;
      ghost var end, i0 := StringEnd(r, i, b), i;
      failed := None;
      while true
        invariant Valid() && i0 <= i <= |r| && StringEnd(r, i, b) == end
        invariant out + [a] == old(out) + [b] + r[i0..i]
        decreases |r| - i
      {
        Put(a);
        SliceMore(r, i0, i);
        StringStep(r, i, b);
        a := Get();
        if a == b {
          return;
        }
        if a == ESCAPE {
          Put(a);
          SliceMore(r, i0, i);
          a := Get();
        }
        if a == EOF {
          failed := Some(UnterminatedString);
          return;
        }
      }
    }

    /** The set in a regular expression that `a` starts, but for its last bracket. */
    method ScanSet() returns (failed: Option<Error>)
      requires Valid() && i <= |r|
      modifies this`i, this`a, this`out
      ensures Valid() && old(i) <= i <= |r|
      ensures failed.Some? ==> SetEnd(r, old(i)) == Err(failed.value)
      ensures failed.None? ==> SetEnd(r, old(i)) == Ok(i)
      ensures failed.None? ==> old(i) < i && a != EOF && out + [a] == old(out) + [old(a)] + r[old(i)..i]
    {
      hide Valid, SetEnd;
      ghost var end, i0 := SetEnd(r, i), i;
      failed := None;
      while true
        invariant Valid() && i0 <= i <= |r| && SetEnd(r, i) == end
        invariant out + [a] == old(out) + [old(a)] + r[i0..i]
        decreases |r| - i
      {
        Put(a);
        SliceMore(r, i0, i);
        SetStep(r, i);
        a := Get();
        if a == 0x5d {
          return;
        }
        if a == ESCAPE {
          Put(a);
          SliceMore(r, i0, i);
          a := Get();
        }
        if a == EOF {
          failed := Some(UnterminatedSet);
          return;
        }
      }
    }

    /** A regular expression behind its first slash, but for the last one. */
    method ScanRegexp() returns (failed: Option<Error>)
      requires Valid() && i <= |r|
      modifies this`i, this`a, this`out
      ensures Valid() && old(i) <= i <= |r|
      ensures failed.Some? ==> RegexpEnd(r, old(i)) == Err(failed.value)
      ensures failed.None? ==> RegexpEnd(r, old(i)) == Ok(i)
      ensures failed.None? ==> old(i) < i && a == SLASH && out + [a] == old(out) + r[old(i)..i]
    {
      hide Valid, SetEnd, RegexpEnd;
      ghost var end, i0 := RegexpEnd(r, i), i;
      failed := None;
      while true
        invariant Valid() && i0 <= i <= |r| && RegexpEnd(r, i) == end && failed.None?
        invariant out == old(out) + r[i0..i]
        decreases |r| - i
      {
        SliceMore(r, i0, i);
        RegexpStep(r, i);
        a := Get();
        if a == 0x5b {
          ghost var i1 := i;
          failed := ScanSet();
          if failed.Some? {
            return;
          }
          SliceJoin(r, i0, i1, i);
        } else if a == SLASH {
          var after := Peek();
          if after == SLASH || after == STAR {
            failed := Some(UnterminatedSet);
          }
          return;
        } else if a == ESCAPE {
          Put(a);
          SliceMore(r, i0, i);
          a := Get();
        }
        if a == EOF {
          failed := Some(UnterminatedRegexp);
          return;
        }
        Put(a);
      }
    }

    /** The regular expression that starts with `b`; `a` has not been written yet. */
    method TakeRegexp(ghost p: int, ghost gap: seq<int>) returns (failed: Option<Error>)
      requires Valid() && i <= |r| && Linked(p, gap, a) && b == SLASH && PrecedesRegexp(a)
      modifies this`i, this`a, this`out
      ensures Valid() && old(i) <= i <= |r|
      ensures failed.Some? ==> old(Outlook(p, gap)) == Err(failed.value)
      ensures failed.None? ==> a == SLASH && Awaited(SLASH, []) == old(Outlook(p, gap))
      ensures failed.None? ==> At(r, i) != SLASH
    {
      hide Valid, Rest, RestFrom, RegexpEnd, PrecedesRegexp;
      RestAtToken(r, p, gap, SLASH, i);
      ghost var before, i0, token := out, i, Separator(p, gap, SLASH, true);
      ghost var a0 := a;
      NotBlank(a);
      Put(a);
      if a == SLASH || a == STAR {
        Put(SP);
      }
      Put(b);
      assert out == before + [a0] + token + [SLASH];
      failed := ScanRegexp();
      if failed.None? {
        BehindBehind(before + [a0], token + ([SLASH] + r[i0..i]), RestFrom(r, SLASH, [], i));
        assert out + [a] == before + [a0] + (token + ([SLASH] + r[i0..i]));
      }
    }

    lemma FreshLink(c: int)
      requires !IsBlank(c) && c != EOF
      ensures Linked(c, [], c)
    {
    }

    lemma NotBlank(c: int)
      requires PrecedesRegexp(c)
      ensures !IsBlank(c) && c != EOF
    {
    }

    /** The third action. */
    method FetchB(ghost p: int, ghost gap: seq<int>)
      returns (failed: Option<Error>, ghost q: int, ghost behind: seq<int>)
      requires Valid() && i <= |r| && Fetched(p, gap)
      modifies this
      ensures Valid() && old(i) <= i <= |r|
      ensures failed.Some? ==> old(Awaited(p, gap)) == Err(failed.value)
      ensures failed.None? ==> Outlook(q, behind) == old(Awaited(p, gap))
      ensures failed.None? ==> (a == EOF <==> old(a) == EOF) && (a != EOF ==> Looking(q, behind))
      ensures failed.None? ==> b == EOF || old(i) < i
    {
      hide Valid, Rest, PrecedesRegexp, Linked;
      FreshLink(SLASH);
      if a == EOF {
        RestAtEnd(r, p, gap, i);
        assert out + [] == out;
      }
      q, behind := p, gap;
      b, failed := Fetch();
      if failed.None? && b == SLASH && PrecedesRegexp(a) {
        NotBlank(a);
        failed := TakeRegexp(p, gap);
        if failed.None? {
          q, behind := SLASH, [];
          b, failed := Fetch();
        }
      }
    }

    /** The second action, up to the next character: `b` becomes `a`, a string as a whole. */
    method TakeB(ghost p: int, ghost gap: seq<int>)
      returns (failed: Option<Error>, ghost q: int, ghost behind: seq<int>)
      requires Valid() && i <= |r| && Looking(p, gap) && (IsBlank(b) ==> Linked(p, gap + [b], b))
      modifies this`i, this`a, this`out
      ensures Valid() && old(i) <= i <= |r|
      ensures failed.Some? ==> Settled(r, p, gap, b, old(i)) == Err(failed.value)
      ensures failed.None? ==> Awaited(q, behind) == Behind(old(out), Settled(r, p, gap, b, old(i)))
      ensures failed.None? ==> (a == EOF <==> b == EOF) && Fetched(q, behind)
    {
      hide Valid, Rest, RestFrom, PrecedesRegexp, Linked, StringEnd, IsQuote;
      LinkHeld(p, gap, a);
      failed, q, behind := None, p, gap;
      ghost var i0 := i;
      a := b;
      if IsBlank(b) {
        behind := gap + [b];
        assert out + [] == out;
      } else if b != EOF {
        q, behind := b, [];
        FreshLink(b);
        if IsQuote(a) {
          QuoteIsNoSlash(a);
          failed := ScanString();
        }
        BehindBehind(old(out), [b] + r[i0..i], RestFrom(r, b, [], i));
        assert failed.None? ==> out + [a] == old(out) + ([b] + r[i0..i]);
      }
    }

    lemma LinkHeld(p: int, gap: seq<int>, a: int)
      requires Linked(p, gap, a)
      ensures Held(p, gap) == a
    {
    }

    lemma QuoteIsNoSlash(c: int)
      requires IsQuote(c)
      ensures c != SLASH && c != EOF
    {
    }

    /** _action: falls through from the first action to the second, and from there to the third. */
    method Act(determined: int, ghost p: int, ghost gap: seq<int>)
      returns (failed: Option<Error>, ghost q: int, ghost behind: seq<int>)
      requires Valid() && i <= |r| && Looking(p, gap) && determined == Decision(a, b)
      modifies this
      ensures Valid() && old(i) <= i <= |r|
      ensures failed.Some? ==> old(Outlook(p, gap)) == Err(failed.value)
      ensures failed.None? ==> Outlook(q, behind) == old(Outlook(p, gap))
      ensures failed.None? ==> (a == EOF <==> determined != 3 && old(b) == EOF) && (a != EOF ==> Looking(q, behind))
      ensures failed.None? ==> b == EOF || old(i) < i
    {
      hide Valid, Rest, RestFrom, PrecedesRegexp, Linked, Settled, Decision, IsOperator, Separator;
      LinkHeld(p, gap, a);
      Decided(p, gap, a, b, y);
      SeparatorFirst(r, p, gap, b, i);
      ghost var separator := if b == EOF || IsBlank(b) then [] else Separator(p, gap, b, false);
      BehindBehind(out + Pending(a), separator, Settled(r, p, gap, b, i));
      ghost var before := out;
      q, behind := p, gap;
      if determined == 1 {
        Put(a);
        if IsBlank(y) && IsOperator(a) && IsOperator(b) {
          Put(y);
        }
      }
      if determined <= 2 {
        assert out == before + (Pending(a) + separator);
        assert out == before + Pending(a) + separator;
        failed, q, behind := TakeB(p, gap);
        if failed.Some? {
          return;
        }
      } else {
        behind := gap + [b];
        RestAtBlank(r, p, gap, b, i);
      }
      failed, q, behind := FetchB(q, behind);
    }
  }

  /** jsmin. */
  method Minify(s: Bytes.bytes, signed: bool) returns (result: Result<seq<int>, Error>)
    ensures result == Minified(s, signed)
  {
    hide Rest, RestFrom, PrecedesRegexp, Lex, Lexed, Held, Decision, Linked, Joined, Cleaned, Behind;
    var m := new Minifier(s, signed);
    if s != [] && Widened(s[0], signed) == 0xef {
      var c := m.Get();
      c := m.Get();
      c := m.Get();
    }
    AtStart(m.r, m.i);
    assert m.out + Pending(NL) == [];
    var failed, p, gap := m.FetchB(NL, []);
    while failed.None? && m.a != EOF
      invariant m.Valid() && m.i <= |m.r|
      invariant failed.Some? ==> Minified(s, signed) == Err(failed.value)
      invariant failed.None? ==> m.Outlook(p, gap) == Minified(s, signed) && (m.a != EOF ==> m.Looking(p, gap))
      decreases failed.None?, |m.r| - m.i + (if m.a != EOF then 1 else 0) + if m.b != EOF then 1 else 0
    {
      failed, p, gap := m.Act(Decision(m.a, m.b), p, gap);
    }
    result := if failed.Some? then Err(failed.value) else Ok(m.out);
  }

  lemma AtStart(r: seq<int>, i: nat)
    requires i <= |r|
    ensures Linked(NL, [], NL)
    ensures Behind([], RestFrom(r, NL, [], i)) ==
            match Lex(r, NL, [], i) case Err(e) => Err(e) case Ok(tokens) => Ok(Joined(NL, tokens))
  {
    hide Lexed;
    BehindNothing(RestFrom(r, NL, [], i));
  }

  lemma SliceMore(r: seq<int>, i0: nat, i: nat)
    requires i0 <= i <= |r|
    ensures i < |r| ==> r[i0..i + 1] == r[i0..i] + [r[i]]
  {
  }

  lemma SliceJoin(r: seq<int>, i0: nat, i1: nat, i: nat)
    requires i0 <= i1 <= i <= |r|
    ensures r[i0..i] == r[i0..i1] + r[i1..i]
  {
  }

  // ---------- What becomes of the tokens ----------

  /** The tokens as the minifier writes them. */
  function Respaced(p: int, tokens: seq<Token>): (t: seq<Token>)
    ensures |t| == |tokens|
    decreases |tokens|
  {
    if tokens == [] then []
    else
      var t := tokens[0];
      [Token(Separator(p, t.gap, t.first, t.regexp), t.first, t.rest, t.regexp)] + Respaced(t.first, tokens[1..])
  }

  /** The text without comments and control characters. */
  function Stripped(tokens: seq<Token>): seq<int>
    decreases |tokens|
  {
    if tokens == [] then [] else tokens[0].gap + tokens[0].Text() + Stripped(tokens[1..])
  }

  lemma {:induction false} OnlyGapsChange(p: int, tokens: seq<Token>)
    ensures Joined(p, tokens) == Stripped(Respaced(p, tokens))
    decreases |tokens|
  {
    if tokens != [] {
      OnlyGapsChange(tokens[0].first, tokens[1..]);
      assert Respaced(p, tokens)[1..] == Respaced(tokens[0].first, tokens[1..]);
    }
  }

  predicate AllBlank(gap: seq<int>) {
    forall k :: 0 <= k < |gap| ==> IsBlank(gap[k])
  }

  function NonBlank(t: seq<int>): seq<int> {
    if t == [] then [] else (if IsBlank(t[0]) then [] else [t[0]]) + NonBlank(t[1..])
  }

  lemma {:induction false} NonBlankConcat(s: seq<int>, t: seq<int>)
    ensures NonBlank(s + t) == NonBlank(s) + NonBlank(t)
  {
    if s == [] {
      assert s + t == t;
    } else {
      assert (s + t)[1..] == s[1..] + t;
      NonBlankConcat(s[1..], t);
    }
  }

  lemma {:induction false} NonBlankOfBlanks(gap: seq<int>)
    requires AllBlank(gap)
    ensures NonBlank(gap) == []
  {
    if gap != [] {
      NonBlankOfBlanks(gap[1..]);
    }
  }

  /** A separator is nothing or a blank; it is a line end only where one has been. */
  lemma SeparatorIsBlank(p: int, gap: seq<int>, c: int, regexp: bool)
    requires AllBlank(gap)
    ensures var s := Separator(p, gap, c, regexp);
            AllBlank(s) && |s| <= 1 && (s == [NL] ==> p == NL || NL in gap)
  {
  }

  /** Two characters that would be read as one token. */
  predicate Merge(p: int, c: int) {
    || (IsAlphanum(p) && IsAlphanum(c))
    || (p == 0x2b && c == 0x2b)
    || (p == 0x2d && c == 0x2d)
    || (p == SLASH && (c == SLASH || c == STAR))
  }

  /** What has been apart stays apart, where it matters; otherwise nothing is put in between. */
  lemma SeparatorKeepsApart(p: int, gap: seq<int>, c: int)
    requires AllBlank(gap) && !IsBlank(c) && p != SP
    ensures var regexp := c == SLASH && PrecedesRegexp(Held(p, gap));
            var s := Separator(p, gap, c, regexp);
            && (gap != [] && Merge(p, c) ==> s != [])
            && (gap == [] && s != [] ==> p == NL || (regexp && (p == SLASH || p == STAR)))
  {
  }

  /** The line ends that are kept. */
  lemma SeparatorIsLineEnd(p: int, gap: seq<int>, c: int, regexp: bool)
    requires AllBlank(gap) && !IsBlank(p) && !IsBlank(c) && NL in gap
    requires IsAlphanum(p) || EndsLine(p)
    ensures Separator(p, gap, c, regexp) == [NL] <==> IsAlphanum(c) || StartsLine(c)
  {
  }

  /** Facts about the tokens of any text. */
  ghost predicate WellLexed(p: int, tokens: seq<Token>)
    decreases |tokens|
  {
    tokens != [] ==>
      var t := tokens[0];
      && AllBlank(t.gap) && !IsBlank(t.first) && t.first != EOF
      && t.regexp == (t.first == SLASH && PrecedesRegexp(Held(p, t.gap)))
      && IsBody(t.first, t.regexp, t.rest)
      && (|tokens| > 1 && t.first == SLASH && tokens[1].gap == [] ==>
            tokens[1].first != SLASH && tokens[1].first != STAR)
      && WellLexed(t.first, tokens[1..])
  }

  /** The rest of a token. */
  predicate IsBody(c: int, regexp: bool, body: seq<int>) {
    if IsQuote(c) then StringEnd(body, 0, c) == Ok(|body|)
    else if regexp then RegexpEnd(body, 0) == Ok(|body|) && At(body, 0) != SLASH && At(body, 0) != STAR
    else body == []
  }

  lemma {:induction false} FirstGap(r: seq<int>, p: int, gap: seq<int>, c: int, i: nat)
    requires i <= |r| && Lexed(r, p, gap, c, i).Ok? && Lexed(r, p, gap, c, i).value != []
    ensures gap <= Lexed(r, p, gap, c, i).value[0].gap
    decreases 2 * (|r| - i) + if c == EOF then 0 else 1
  {
    hide Held, LiteralEnd;
    if IsBlank(c) {
      var d := Next(r, i).value;
      hide Next;
      FirstGap(r, p, gap + [c], d.c, d.i);
    }
  }

  /** What characters are after cleaning. */
  predicate Readable(r: seq<int>) {
    forall k :: 0 <= k < |r| ==> r[k] == EOF || r[k] == NL || r[k] >= SP
  }

  /** Without a gap, a token starts right where it is looked for. */
  lemma FirstToken(r: seq<int>, p: int, i: nat)
    requires i <= |r| && Readable(r) && Lex(r, p, [], i).Ok? && Lex(r, p, [], i).value != []
    requires Lex(r, p, [], i).value[0].gap == []
    ensures Lex(r, p, [], i).value[0].first == At(r, i)
  {
    hide LiteralEnd, Held;
    var d := Next(r, i).value;
    if IsBlank(d.c) {
      FirstGapOfBlank(r, p, d.c, d.i);
    } else {
      assert d.c == At(r, i);
    }
  }

  lemma FirstGapOfBlank(r: seq<int>, p: int, c: int, i: nat)
    requires i <= |r| && IsBlank(c) && Lexed(r, p, [], c, i).Ok? && Lexed(r, p, [], c, i).value != []
    ensures Lexed(r, p, [], c, i).value[0].gap != []
  {
    hide LiteralEnd, Held;
    assert Lexed(r, p, [], c, i) == Lex(r, p, [] + [c], i);
    var d := Next(r, i).value;
    FirstGap(r, p, [] + [c], d.c, d.i);
  }

  // ---------- Literals elsewhere ----------

  predicate SameText(r: seq<int>, j: nat, u: seq<int>, k: nat, n: nat) {
    j + n <= |r| && k + n <= |u| && forall m :: j <= m < j + n ==> r[m] == u[m - j + k]
  }

  lemma SameLater(r: seq<int>, j: nat, u: seq<int>, k: nat, n: nat, d: nat)
    requires SameText(r, j, u, k, n) && d <= n
    ensures SameText(r, j + d, u, k + d, n - d)
  {
  }

  lemma {:induction false} StringElsewhere(r: seq<int>, j: nat, u: seq<int>, k: nat, n: nat, quote: int)
    requires IsQuote(quote) && StringEnd(r, j, quote) == Ok(j + n) && SameText(r, j, u, k, n)
    ensures StringEnd(u, k, quote) == Ok(k + n)
    decreases n
  {
    assert n > 0 && r[j] == u[k];
    if r[j] != quote {
      var d := if r[j] == ESCAPE then 2 else 1;
      SameLater(r, j, u, k, n, d);
      assert d == 2 ==> n > 1 && r[j + 1] == u[k + 1];
      StringElsewhere(r, j + d, u, k + d, n - d, quote);
    }
  }

  lemma {:induction false} SetElsewhere(r: seq<int>, j: nat, u: seq<int>, k: nat, n: nat)
    requires SetEnd(r, j) == Ok(j + n) && SameText(r, j, u, k, n)
    ensures SetEnd(u, k) == Ok(k + n)
    decreases n
  {
    assert n > 0 && r[j] == u[k];
    if r[j] != 0x5d {
      var d := if r[j] == ESCAPE then 2 else 1;
      SameLater(r, j, u, k, n, d);
      assert d == 2 ==> n > 1 && r[j + 1] == u[k + 1];
      SetElsewhere(r, j + d, u, k + d, n - d);
    }
  }

  lemma {:induction false} RegexpElsewhere(r: seq<int>, j: nat, u: seq<int>, k: nat, n: nat)
    requires RegexpEnd(r, j) == Ok(j + n) && SameText(r, j, u, k, n)
    requires At(u, k + n) != SLASH && At(u, k + n) != STAR
    ensures RegexpEnd(u, k) == Ok(k + n)
    decreases n
  {
    RegexpIsLonger(r, j);
    hide SetEnd, RegexpEnd;
    RegexpStep(r, j);
    RegexpStep(u, k);
    assert r[j] == u[k];
    if r[j] == 0x5b {
      var d := SetEnd(r, j + 1).value - j;
      SetIsLonger(r, j + 1);
      RegexpIsLonger(r, j + d);
      SameLater(r, j, u, k, n, 1);
      SameLess(r, j + 1, u, k + 1, n - 1, d - 1);
      SetElsewhere(r, j + 1, u, k + 1, d - 1);
      SameLater(r, j, u, k, n, d);
      RegexpElsewhere(r, j + d, u, k + d, n - d);
    } else if r[j] != SLASH {
      var d := if r[j] == ESCAPE then 2 else 1;
      RegexpIsLonger(r, j + d);
      SameLater(r, j, u, k, n, d);
      RegexpElsewhere(r, j + d, u, k + d, n - d);
    }
  }

  lemma RegexpIsLonger(r: seq<int>, i: nat)
    ensures RegexpEnd(r, i).Ok? ==> i < RegexpEnd(r, i).value <= |r|
  {
  }

  lemma SetIsLonger(r: seq<int>, i: nat)
    ensures SetEnd(r, i).Ok? ==> i < SetEnd(r, i).value <= |r|
  {
  }

  lemma SameLess(r: seq<int>, j: nat, u: seq<int>, k: nat, n: nat, d: nat)
    requires SameText(r, j, u, k, n) && d <= n
    ensures SameText(r, j, u, k, d)
  {
  }

  /** A literal in the text is one on its own. */
  lemma BodyOf(r: seq<int>, held: int, c: int, i: nat)
    requires i <= |r| && LiteralEnd(r, held, c, i).Ok? && !IsBlank(c) && c != EOF
    requires c == SLASH ==> At(r, i) != SLASH && At(r, i) != STAR
    ensures IsBody(c, c == SLASH && PrecedesRegexp(held), r[i..LiteralEnd(r, held, c, i).value])
    ensures c == SLASH ==> At(r, LiteralEnd(r, held, c, i).value) !in {SLASH, STAR}
  {
    hide StringEnd, RegexpEnd, PrecedesRegexp;
    var end := LiteralEnd(r, held, c, i).value;
    var body := r[i..end];
    assert SameText(r, i, body, 0, end - i);
    if IsQuote(c) {
      StringElsewhere(r, i, body, 0, end - i, c);
    } else if c == SLASH && PrecedesRegexp(held) {
      RegexpElsewhere(r, i, body, 0, end - i);
    }
  }

  lemma {:induction false} LexedIsWell(r: seq<int>, p: int, gap: seq<int>, c: int, i: nat)
    requires i <= |r| && Readable(r) && AllBlank(gap) && Lexed(r, p, gap, c, i).Ok?
    requires c == SLASH ==> At(r, i) != SLASH && At(r, i) != STAR
    ensures WellLexed(p, Lexed(r, p, gap, c, i).value)
    decreases 2 * (|r| - i) + if c == EOF then 0 else 1
  {
    hide Held, LiteralEnd, IsBody, PrecedesRegexp;
    if c == EOF {
    } else if IsBlank(c) {
      assert Lexed(r, p, gap, c, i) == Lex(r, p, gap + [c], i);
      var d := Next(r, i).value;
      LexedIsWell(r, p, gap + [c], d.c, d.i);
    } else {
      var end := LiteralEnd(r, Held(p, gap), c, i).value;
      BodyOf(r, Held(p, gap), c, i);
      var more := Lex(r, c, [], end).value;
      var d := Next(r, end).value;
      LexedIsWell(r, c, [], d.c, d.i);
      if more != [] && more[0].gap == [] {
        FirstToken(r, c, end);
      }
      assert ([TokenOf(r, p, gap, c, i, end)] + more)[1..] == more;
    }
  }

  // ---------- Reading the output again ----------

  /**
   * A division sign that would start a regular expression if the line end before it were not there;
   * nothing is written instead of this line end.
   */
  predicate DividesLine(p: int, t: Token) {
    t.first == SLASH && NL in t.gap && EndsLine(p) && PrecedesRegexp(p)
  }

  predicate DividesLines(p: int, tokens: seq<Token>)
    decreases |tokens|
  {
    tokens != [] && (DividesLine(p, tokens[0]) || DividesLines(tokens[0].first, tokens[1..]))
  }

  /** The shorter separator leads to the same kind of token, with this one exception. */
  lemma SameKind(p: int, t: Token)
    requires AllBlank(t.gap) && !IsBlank(t.first) && p != SP
    requires t.regexp == (t.first == SLASH && PrecedesRegexp(Held(p, t.gap)))
    ensures var separator := Separator(p, t.gap, t.first, t.regexp);
            t.regexp == (t.first == SLASH && PrecedesRegexp(Held(p, separator))) <==> !DividesLine(p, t)
  {
  }

  /** Doing it twice makes no difference. */
  lemma SeparatorTwice(p: int, t: Token)
    requires AllBlank(t.gap) && !IsBlank(t.first) && p != SP
    requires t.regexp == (t.first == SLASH && PrecedesRegexp(Held(p, t.gap)))
    ensures var separator := Separator(p, t.gap, t.first, t.regexp);
            Separator(p, separator, t.first, t.regexp) == separator
  {
  }

  /** No comment starts at the end of a token. */
  lemma NoCommentBehind(tokens: seq<Token>)
    requires WellLexed(SLASH, tokens)
    requires tokens != [] && tokens[0].gap == [] ==> tokens[0].first !in {SLASH, STAR}
    ensures At(Joined(SLASH, tokens), 0) !in {SLASH, STAR}
  {
    hide IsBody, Separator, Held;
    if tokens != [] {
      var t := tokens[0];
      SeparatorIsBlank(SLASH, t.gap, t.first, t.regexp);
      SeparatorKeepsApart(SLASH, t.gap, t.first);
    }
  }

  /** A blank is read as it is, and so is anything else where no comment starts. */
  lemma ReadAsItIs(u: seq<int>, i: nat)
    requires i < |u| && u[i] != EOF && (u[i] == SLASH ==> At(u, i + 1) !in {SLASH, STAR})
    ensures Next(u, i) == Ok(Read(u[i], i + 1))
  {
  }

  lemma LexSeparator(u: seq<int>, p: int, separator: seq<int>, i: nat)
    requires |separator| <= 1 && AllBlank(separator)
    requires i + |separator| <= |u| && u[i..i + |separator|] == separator
    ensures Lex(u, p, [], i) == Lex(u, p, separator, i + |separator|)
  {
    if separator != [] {
      assert u[i] == u[i..i + 1][0];
      ReadAsItIs(u, i);
      assert [] + [u[i]] == separator;
      assert Lexed(u, p, [], u[i], i + 1) == Lex(u, p, [] + [u[i]], i + 1);
    }
  }

  /** A token with the text of `t` is read again. */
  lemma LexToken(u: seq<int>, p: int, separator: seq<int>, i: nat, t: Token)
    requires !IsBlank(t.first) && t.first != EOF && IsBody(t.first, t.regexp, t.rest)
    requires t.regexp == (t.first == SLASH && PrecedesRegexp(Held(p, separator)))
    requires i + 1 + |t.rest| <= |u| && u[i] == t.first && u[i + 1..i + 1 + |t.rest|] == t.rest
    requires t.first == SLASH ==> At(u, i + 1 + |t.rest|) !in {SLASH, STAR}
    ensures var more := Lex(u, t.first, [], i + 1 + |t.rest|);
            Lex(u, p, separator, i) ==
            if more.Err? then Err(more.error) else Ok([Token(separator, t.first, t.rest, t.regexp)] + more.value)
  {
    hide Held, PrecedesRegexp, StringEnd, RegexpEnd;
    var end := i + 1 + |t.rest|;
    assert SameText(t.rest, 0, u, i + 1, |t.rest|) by {
      forall m | 0 <= m < |t.rest| ensures t.rest[m] == u[m + i + 1] {
        assert u[i + 1..end][m] == u[m + i + 1];
      }
    }
    if IsQuote(t.first) {
      StringElsewhere(t.rest, 0, u, i + 1, |t.rest|, t.first);
    } else if t.regexp {
      RegexpElsewhere(t.rest, 0, u, i + 1, |t.rest|);
      assert t.rest != [] by {
        RegexpIsLonger(t.rest, 0);
      }
    }
    ReadAsItIs(u, i);
    hide Next;
    assert LiteralEnd(u, Held(p, separator), t.first, i + 1) == Ok(end);
  }

  /** Another kind of token is read. */
  lemma LexOther(u: seq<int>, p: int, separator: seq<int>, i: nat, t: Token)
    requires i < |u| && u[i] == t.first == SLASH && At(u, i + 1) !in {SLASH, STAR}
    requires t.regexp != PrecedesRegexp(Held(p, separator))
    ensures var again := Lex(u, p, separator, i);
            again.Ok? ==> again.value != [] && again.value[0].regexp != t.regexp
  {
    hide Held, PrecedesRegexp, StringEnd, RegexpEnd;
    ReadAsItIs(u, i);
    hide Next;
  }

  /** Where the parts of the next token are. */
  lemma PartsOf(u: seq<int>, i: nat, separator: seq<int>, t: Token, more: seq<int>)
    requires i <= |u| && u[i..] == separator + t.Text() + more
    ensures var j := i + |separator|;
            && j + 1 + |t.rest| <= |u|
            && u[i..j] == separator && u[j] == t.first && u[j + 1..j + 1 + |t.rest|] == t.rest
            && u[j + 1 + |t.rest|..] == more
  {
    var j := i + |separator|;
    var text := t.Text();
    assert |u| - i == |separator| + 1 + |t.rest| + |more|;
    assert forall k :: i <= k < |u| ==> u[k] == u[i..][k - i];
    assert u[i..j] == separator;
    assert u[j] == text[0];
    assert forall k :: j < k <= j + |t.rest| ==> u[k] == text[k - j];
    assert u[j + 1..j + 1 + |t.rest|] == t.rest;
    assert u[j + 1 + |t.rest|..] == more;
  }

  lemma {:induction false} ReadAgain(u: seq<int>, i: nat, p: int, tokens: seq<Token>)
    requires i <= |u| && u[i..] == Joined(p, tokens) && WellLexed(p, tokens) && p != SP
    ensures Lex(u, p, [], i) == Ok(Respaced(p, tokens)) <==> !DividesLines(p, tokens)
    decreases |tokens|
  {
    hide Separator, Held, IsBody, DividesLine, Lex;
    if tokens == [] {
      AtTheEnd(u, p, i);
    } else {
      var t, more := tokens[0], tokens[1..];
      var separator := Separator(p, t.gap, t.first, t.regexp);
      var j := i + |separator|;
      PartsOf(u, i, separator, t, Joined(t.first, more));
      SeparatorIsBlank(p, t.gap, t.first, t.regexp);
      LexSeparator(u, p, separator, i);
      SameKind(p, t);
      if t.first == SLASH {
        NoCommentBehind(more);
        AtSlice(u, j + 1 + |t.rest|);
      }
      ReadAgain(u, j + 1 + |t.rest|, t.first, more);
      if DividesLine(p, t) {
        SlashBody(p, t);
        LexOther(u, p, separator, j, t);
      } else {
        LexToken(u, p, separator, j, t);
        SameTail(Token(separator, t.first, t.rest, t.regexp), Lex(u, t.first, [], j + 1 + |t.rest|), Respaced(t.first, more));
      }
    }
  }

  lemma AtTheEnd(u: seq<int>, p: int, i: nat)
    requires i == |u|
    ensures Lex(u, p, [], i) == Ok([])
  {
  }

  lemma AtSlice(u: seq<int>, i: nat)
    requires i <= |u|
    ensures At(u[i..], 0) == At(u, i)
  {
  }

  lemma SlashBody(p: int, t: Token)
    requires DividesLine(p, t) && t.regexp == (t.first == SLASH && PrecedesRegexp(Held(p, t.gap)))
    requires IsBody(t.first, t.regexp, t.rest) && p != SP
    ensures t.first == SLASH && !t.regexp && t.rest == []
  {
  }

  lemma SameTail(t: Token, again: Result<seq<Token>, Error>, more: seq<Token>)
    ensures (if again.Err? then Err(again.error) else Ok([t] + again.value)) == Ok([t] + more) <==> again == Ok(more)
  {
    if again.Ok? && [t] + again.value == [t] + more {
      assert again.value == ([t] + again.value)[1..];
      assert more == ([t] + more)[1..];
    }
  }

  lemma {:induction false} JoinedTwice(p: int, tokens: seq<Token>)
    requires WellLexed(p, tokens) && p != SP
    ensures Joined(p, Respaced(p, tokens)) == Joined(p, tokens)
    decreases |tokens|
  {
    hide Separator, Held, IsBody;
    if tokens != [] {
      SeparatorTwice(p, tokens[0]);
      JoinedTwice(tokens[0].first, tokens[1..]);
      assert Respaced(p, tokens)[1..] == Respaced(tokens[0].first, tokens[1..]);
    }
  }

  // ---------- The main results ----------

  /** What can be written as a char and read again. */
  predicate IsPlain(c: int, signed: bool) {
    (c == NL || c >= SP) && c < if signed then 0x80 else 0x100
  }

  predicate AllPlain(t: seq<int>, signed: bool) {
    forall k :: 0 <= k < |t| ==> IsPlain(t[k], signed)
  }

  /** luaL_addchar. */
  function Written(t: seq<int>): (s: Bytes.bytes)
    requires AllPlain(t, false)
    ensures |s| == |t| && forall k :: 0 <= k < |s| ==> s[k] == t[k]
  {
    seq(|t|, k requires 0 <= k < |t| && IsPlain(t[k], false) => t[k])
  }

  lemma CharsArePlain(s: Bytes.bytes, signed: bool)
    ensures forall k :: 0 <= k < |s| && Chars(s, signed)[k] != EOF ==> IsPlain(Chars(s, signed)[k], signed)
    ensures Readable(Chars(s, signed))
  {
  }

  lemma ReadWritten(t: seq<int>, signed: bool)
    requires AllPlain(t, signed)
    ensures AllPlain(t, false) && Chars(Written(t), signed) == t
  {
  }

  predicate PlainTokens(tokens: seq<Token>, signed: bool) {
    forall k :: 0 <= k < |tokens| ==> AllPlain(tokens[k].Text(), signed)
  }

  lemma {:induction false} LexedIsPlain(r: seq<int>, p: int, gap: seq<int>, c: int, i: nat, signed: bool)
    requires i <= |r| && Readable(r) && Lexed(r, p, gap, c, i).Ok?
    requires forall k :: 0 <= k < |r| && r[k] != EOF ==> IsPlain(r[k], signed)
    requires c == EOF || IsPlain(c, signed)
    ensures PlainTokens(Lexed(r, p, gap, c, i).value, signed)
    decreases 2 * (|r| - i) + if c == EOF then 0 else 1
  {
    hide Held, IsBlank;
    if c == EOF {
    } else if IsBlank(c) {
      assert Lexed(r, p, gap, c, i) == Lex(r, p, gap + [c], i);
      var d := Next(r, i).value;
      LexedIsPlain(r, p, gap + [c], d.c, d.i, signed);
    } else {
      var end := LiteralEnd(r, Held(p, gap), c, i).value;
      LiteralIsPlain(r, Held(p, gap), c, i, signed);
      var d := Next(r, end).value;
      LexedIsPlain(r, c, [], d.c, d.i, signed);
    }
  }

  lemma LiteralIsPlain(r: seq<int>, held: int, c: int, i: nat, signed: bool)
    requires i <= |r| && LiteralEnd(r, held, c, i).Ok?
    requires forall k :: 0 <= k < |r| && r[k] != EOF ==> IsPlain(r[k], signed)
    ensures AllPlain(r[i..LiteralEnd(r, held, c, i).value], signed)
  {
  }

  lemma {:induction false} JoinedIsPlain(p: int, tokens: seq<Token>, signed: bool)
    requires PlainTokens(tokens, signed) && WellLexed(p, tokens)
    ensures AllPlain(Joined(p, tokens), signed)
    decreases |tokens|
  {
    hide Separator, Held, IsBody;
    if tokens != [] {
      var t := tokens[0];
      SeparatorIsBlank(p, t.gap, t.first, t.regexp);
      JoinedIsPlain(t.first, tokens[1..], signed);
    }
  }

  lemma TokensAreWell(s: Bytes.bytes, signed: bool)
    requires Tokens(s, signed).Ok?
    ensures WellLexed(NL, Tokens(s, signed).value) && PlainTokens(Tokens(s, signed).value, signed)
  {
    hide WellLexed, PlainTokens, LiteralEnd, Held, Chars;
    var r, i := Chars(s, signed), Start(s, signed);
    CharsArePlain(s, signed);
    var d := Next(r, i).value;
    NextIsPlain(r, i, signed);
    LexedIsWell(r, NL, [], d.c, d.i);
    LexedIsPlain(r, NL, [], d.c, d.i, signed);
  }

  lemma NextIsPlain(r: seq<int>, i: nat, signed: bool)
    requires i <= |r| && Next(r, i).Ok? && Readable(r)
    requires forall k :: 0 <= k < |r| && r[k] != EOF ==> IsPlain(r[k], signed)
    ensures var d := Next(r, i).value;
            && (d.c == EOF || IsPlain(d.c, signed))
            && (d.c == SLASH ==> At(r, d.i) != SLASH && At(r, d.i) != STAR)
  {
  }

  lemma {:induction false} SameNonBlank(p: int, tokens: seq<Token>)
    requires WellLexed(p, tokens)
    ensures NonBlank(Joined(p, tokens)) == NonBlank(Stripped(tokens))
    decreases |tokens|
  {
    hide Separator, Held, IsBody;
    if tokens != [] {
      var t := tokens[0];
      var separator := Separator(p, t.gap, t.first, t.regexp);
      SeparatorIsBlank(p, t.gap, t.first, t.regexp);
      hide NonBlank;
      NonBlankOfBlanks(separator);
      NonBlankOfBlanks(t.gap);
      NonBlankConcat(separator, t.Text());
      NonBlankConcat(t.gap, t.Text());
      NonBlankConcat(separator + t.Text(), Joined(t.first, tokens[1..]));
      NonBlankConcat(t.gap + t.Text(), Stripped(tokens[1..]));
      SameNonBlank(t.first, tokens[1..]);
    }
  }

  /** A stretch of the text; a comment is read as the character `c`, which is its line end if it has one. */
  datatype Piece = Blank(c: int) | Comment(text: seq<int>, c: int) | Solid(text: seq<int>) {
    function Spelled(): seq<int> {
      if Blank? then [c] else text
    }
  }

  function Spelling(pieces: seq<Piece>): seq<int> {
    if pieces == [] then [] else pieces[0].Spelled() + Spelling(pieces[1..])
  }

  /** A comment to the end of the line, or of the text; or one up to the first star and slash. */
  predicate IsComment(text: seq<int>, c: int) {
    |text| >= 2 && text[0] == SLASH &&
    if text[1] == SLASH then
      && (c == NL || c == EOF)
      && (c == NL ==> |text| > 2 && text[|text| - 1] == NL)
      && forall k :: 2 <= k < |text| - (if c == NL then 1 else 0) ==> text[k] >= SP
    else
      && c == SP && |text| >= 4 && text[1] == STAR
      && text[|text| - 2] == STAR && text[|text| - 1] == SLASH
      && forall k :: 2 <= k < |text| - 2 ==> !(text[k] == STAR && text[k + 1] == SLASH)
  }

  predicate IsPiece(piece: Piece) {
    match piece
    case Blank(c) => IsBlank(c)
    case Comment(text, c) => IsComment(text, c)
    case Solid(text) => text != [] && !IsBlank(text[0]) && text[0] != EOF
  }

  /** The pieces are the tokens with their gaps; `gap` is what came before. */
  predicate AreTokens(pieces: seq<Piece>, gap: seq<int>, tokens: seq<Token>)
    decreases |pieces|
  {
    if pieces == [] then tokens == []
    else
      match pieces[0]
      case Blank(c) => AreTokens(pieces[1..], gap + [c], tokens)
      case Comment(_, c) => AreTokens(pieces[1..], if c == EOF then gap else gap + [c], tokens)
      case Solid(text) =>
        tokens != [] && tokens[0].gap == gap && tokens[0].Text() == text && AreTokens(pieces[1..], [], tokens[1..])
  }

  lemma {:induction false} LineCommentIs(r: seq<int>, i: nat) returns (e: nat)
    requires i <= |r| && Readable(r)
    ensures var d := LineComment(r, i);
            && i <= e <= |r| && (forall k :: i <= k < e ==> r[k] >= SP)
            && if d.c == EOF then At(r, e) == EOF else d.c == NL && e < |r| && r[e] == NL && d.i == e + 1
    decreases |r| - i
  {
    if At(r, i) <= NL {
      e := i;
    } else {
      e := LineCommentIs(r, i + 1);
    }
  }

  lemma {:induction false} BlockCommentIs(r: seq<int>, i: nat)
    requires i <= |r| && BlockComment(r, i).Ok?
    ensures var j := BlockComment(r, i).value;
            && i + 2 <= j <= |r| && r[j - 2] == STAR && r[j - 1] == SLASH
            && forall k :: i <= k < j - 2 ==> !(r[k] == STAR && r[k + 1] == SLASH)
    decreases |r| - i
  {
    if !(At(r, i) == STAR && At(r, i + 1) == SLASH) {
      BlockCommentIs(r, i + 1);
    }
  }

  /** One more piece. */
  lemma OnePiece(r: seq<int>, i: nat, j: nat, e: nat, piece: Piece, more: seq<Piece>)
    requires i <= j <= e <= |r| && piece.Spelled() == r[i..j] && Spelling(more) == r[j..e] && IsPiece(piece)
    requires forall k :: 0 <= k < |more| ==> IsPiece(more[k])
    ensures Spelling([piece] + more) == r[i..e] && ([piece] + more)[1..] == more
    ensures forall k :: 0 <= k < |[piece] + more| ==> IsPiece(([piece] + more)[k])
  {
    hide IsPiece;
    assert ([piece] + more)[1..] == more;
    assert r[i..j] + r[j..e] == r[i..e];
  }

  /** The comment at the beginning is one piece. */
  lemma CommentPiece(r: seq<int>, i: nat) returns (piece: Piece, j: nat)
    requires i + 1 < |r| && Readable(r) && r[i] == SLASH && r[i + 1] in {SLASH, STAR} && Next(r, i).Ok?
    ensures piece.Comment? && IsPiece(piece) && i < j <= |r| && piece.text == r[i..j]
    ensures piece.c == Next(r, i).value.c && if piece.c == EOF then At(r, j) == EOF else IsBlank(piece.c) && j == Next(r, i).value.i
  {
    var d := Next(r, i).value;
    if r[i + 1] == SLASH {
      var e := LineCommentIs(r, i + 1);
      j := if d.c == EOF then e else e + 1;
    } else {
      BlockCommentIs(r, i + 2);
      j := d.i;
    }
    piece := Comment(r[i..j], d.c);
  }

  /** Behind a comment the next piece is looked for as before. */
  lemma LexComment(r: seq<int>, p: int, gap: seq<int>, i: nat)
    requires i < |r| && Next(r, i).Ok? && Lex(r, p, gap, i).Ok?
    ensures var d := Next(r, i).value;
            && (d.c == EOF ==> Lex(r, p, gap, i) == Ok([]))
            && (IsBlank(d.c) ==> Lex(r, p, gap, i) == Lex(r, p, gap + [d.c], d.i))
  {
    hide Next, LiteralEnd;
  }

  /** The token at the beginning is one piece. */
  lemma SolidPiece(r: seq<int>, p: int, gap: seq<int>, i: nat) returns (piece: Piece, j: nat)
    requires i < |r| && Next(r, i) == Ok(Read(r[i], i + 1)) && !IsBlank(r[i]) && r[i] != EOF && Lex(r, p, gap, i).Ok?
    ensures i < j <= |r| && piece == Solid(r[i..j]) && IsPiece(piece) && Lex(r, r[i], [], j).Ok?
    ensures var tokens := Lex(r, p, gap, i).value;
            tokens != [] && tokens[0].gap == gap && tokens[0].Text() == piece.text && tokens[1..] == Lex(r, r[i], [], j).value
  {
    hide LiteralEnd, Held, Next;
    j := LiteralEnd(r, Held(p, gap), r[i], i + 1).value;
    piece := Solid(r[i..j]);
    var t, more := TokenOf(r, p, gap, r[i], i + 1, j), Lex(r, r[i], [], j).value;
    assert Lex(r, p, gap, i) == Lexed(r, p, gap, r[i], i + 1) == Ok([t] + more);
    assert ([t] + more)[1..] == more;
    assert r[i..j] == [r[i]] + r[i + 1..j];
  }

  lemma NoPieces(r: seq<int>, e: nat)
    requires e <= |r|
    ensures Spelling([]) == r[e..e]
  {
  }

  /** What is accepted is tiled by blanks, comments and the tokens, up to the end of the text. */
  lemma {:induction false} Tiled(r: seq<int>, p: int, gap: seq<int>, i: nat) returns (pieces: seq<Piece>, e: nat)
    requires i <= |r| && Readable(r) && Lex(r, p, gap, i).Ok?
    ensures i <= e <= |r| && At(r, e) == EOF && Spelling(pieces) == r[i..e]
    ensures forall k :: 0 <= k < |pieces| ==> IsPiece(pieces[k])
    ensures AreTokens(pieces, gap, Lex(r, p, gap, i).value)
    decreases |r| - i
  {
    hide LiteralEnd, Held, IsComment, IsBlank, Spelling, Lex;
    var piece, j;
    var more: seq<Piece> := [];
    if i + 1 < |r| && r[i] == SLASH && r[i + 1] in {SLASH, STAR} {
      NextIsThere(r, p, gap, i);
      piece, j := CommentPiece(r, i);
      LexComment(r, p, gap, i);
      e := j;
      if piece.c != EOF {
        more, e := Tiled(r, p, gap + [piece.c], j);
      }
    } else if At(r, i) == EOF {
      NothingLeft(r, p, gap, i);
      NoPieces(r, i);
      return [], i;
    } else {
      ReadAsItIs(r, i);
      if IsBlank(r[i]) {
        LexBlank(r, p, gap, i);
        piece, j := Blank(r[i]), i + 1;
        more, e := Tiled(r, p, gap + [r[i]], j);
      } else {
        piece, j := SolidPiece(r, p, gap, i);
        more, e := Tiled(r, r[i], [], j);
      }
    }
    NoPieces(r, e);
    OnePiece(r, i, j, e, piece, more);
    pieces := [piece] + more;
  }

  lemma NextIsThere(r: seq<int>, p: int, gap: seq<int>, i: nat)
    requires i <= |r| && Lex(r, p, gap, i).Ok?
    ensures Next(r, i).Ok?
  {
  }

  lemma NothingLeft(r: seq<int>, p: int, gap: seq<int>, i: nat)
    requires i <= |r| && At(r, i) == EOF && Lex(r, p, gap, i).Ok?
    ensures Lex(r, p, gap, i) == Ok([])
  {
  }

  /** The pieces without comments. */
  function Uncommented(pieces: seq<Piece>): seq<int> {
    if pieces == [] then []
    else (if pieces[0].Comment? then [] else pieces[0].Spelled()) + Uncommented(pieces[1..])
  }

  lemma {:induction false} UncommentedIs(pieces: seq<Piece>, gap: seq<int>, tokens: seq<Token>)
    requires AreTokens(pieces, gap, tokens) && AllBlank(gap) && forall k :: 0 <= k < |pieces| ==> IsPiece(pieces[k])
    ensures NonBlank(Uncommented(pieces)) == NonBlank(Stripped(tokens))
    decreases |pieces|
  {
    hide IsComment, IsBlank;
    if pieces != [] {
      var rest := Uncommented(pieces[1..]);
      assert IsPiece(pieces[0]) && forall k :: 0 <= k < |pieces[1..]| ==> IsPiece(pieces[1..][k]);
      match pieces[0] {
        case Blank(c) =>
          UncommentedIs(pieces[1..], gap + [c], tokens);
          hide NonBlank;
          NonBlankConcat([c], rest);
          NonBlankOfBlanks([c]);
        case Comment(text, c) =>
          CommentIsBlank(text, c);
          UncommentedIs(pieces[1..], if c == EOF then gap else gap + [c], tokens);
          assert [] + rest == rest;
        case Solid(text) =>
          UncommentedIs(pieces[1..], [], tokens[1..]);
          hide NonBlank;
          NonBlankOfBlanks(gap);
          NonBlankConcat(gap, text);
          NonBlankConcat(gap + text, Stripped(tokens[1..]));
          NonBlankConcat(text, rest);
      }
    }
  }

  lemma CommentIsBlank(text: seq<int>, c: int)
    requires IsComment(text, c)
    ensures c == EOF || IsBlank(c)
  {
  }

  /**
   * What is accepted consists of blanks, comments and other pieces, up to its end, and the output has just
   * the characters of those others.
   */
  lemma KeepsCharacters(s: Bytes.bytes, signed: bool) returns (pieces: seq<Piece>, e: nat)
    requires Minified(s, signed).Ok?
    ensures Start(s, signed) <= e <= |s| && At(Chars(s, signed), e) == EOF
    ensures Spelling(pieces) == Chars(s, signed)[Start(s, signed)..e] && forall k :: 0 <= k < |pieces| ==> IsPiece(pieces[k])
    ensures AreTokens(pieces, [], Tokens(s, signed).value)
    ensures NonBlank(Minified(s, signed).value) == NonBlank(Uncommented(pieces))
  {
    hide WellLexed, PlainTokens, Lex, Chars;
    TokensAreWell(s, signed);
    SameNonBlank(NL, Tokens(s, signed).value);
    CharsArePlain(s, signed);
    pieces, e := Tiled(Chars(s, signed), NL, [], Start(s, signed));
    UncommentedIs(pieces, [], Tokens(s, signed).value);
  }

  /** Without slashes and quotes there is nothing but single characters, and none of them is lost. */
  lemma {:induction false} NothingToSkip(r: seq<int>, p: int, gap: seq<int>, i: nat)
    requires i <= |r| && forall k :: 0 <= k < |r| ==> r[k] != SLASH && !IsQuote(r[k]) && r[k] != EOF
    requires AllBlank(gap)
    ensures Lex(r, p, gap, i).Ok? && NonBlank(Stripped(Lex(r, p, gap, i).value)) == NonBlank(r[i..])
    decreases |r| - i
  {
    hide Held, IsQuote;
    assert Next(r, i) == Ok(Read(At(r, i), Past(r, i)));
    hide Next;
    if i == |r| {
      NothingAtEnd(r, p, gap);
    } else {
      var c := r[i];
      assert r[i..][1..] == r[i + 1..];
      if IsBlank(c) {
        assert Lexed(r, p, gap, c, i + 1) == Lex(r, p, gap + [c], i + 1);
        NothingToSkip(r, p, gap + [c], i + 1);
      } else {
        NothingToSkip(r, c, [], i + 1);
        OneCharacter(r, p, gap, i);
      }
    }
  }

  lemma NothingAtEnd(r: seq<int>, p: int, gap: seq<int>)
    ensures Lex(r, p, gap, |r|) == Ok([]) && NonBlank(r[|r|..]) == []
  {
  }

  lemma OneCharacter(r: seq<int>, p: int, gap: seq<int>, i: nat)
    requires i < |r| && r[i] != SLASH && !IsQuote(r[i]) && r[i] != EOF && !IsBlank(r[i]) && AllBlank(gap)
    requires Lex(r, r[i], [], i + 1).Ok?
    ensures Lex(r, p, gap, i).Ok?
    ensures NonBlank(Stripped(Lex(r, p, gap, i).value)) == [r[i]] + NonBlank(Stripped(Lex(r, r[i], [], i + 1).value))
  {
    hide Held, IsQuote;
    var c, more := r[i], Lex(r, r[i], [], i + 1).value;
    ReadAsItIs(r, i);
    hide Next;
    var t := TokenOf(r, p, gap, c, i + 1, i + 1);
    assert Lexed(r, p, gap, c, i + 1) == Ok([t] + more);
    assert ([t] + more)[1..] == more;
    assert t.Text() == [c];
    NonBlankOfBlanks(gap);
    NonBlankConcat(gap, [c]);
    NonBlankConcat(gap + [c], Stripped(more));
  }

  /** The character before token `k`. */
  function Before(tokens: seq<Token>, k: nat): int
    requires k < |tokens|
  {
    if k == 0 then NL else tokens[k - 1].first
  }

  lemma {:induction false} RespacedAt(p: int, tokens: seq<Token>, k: nat)
    requires k < |tokens|
    ensures var t := tokens[k];
            Respaced(p, tokens)[k] ==
            Token(Separator(if k == 0 then p else tokens[k - 1].first, t.gap, t.first, t.regexp), t.first, t.rest, t.regexp)
    decreases k
  {
    hide Separator;
    if k > 0 {
      RespacedAt(tokens[0].first, tokens[1..], k - 1);
    }
  }

  lemma {:induction false} WellAt(p: int, tokens: seq<Token>, k: nat)
    requires WellLexed(p, tokens) && k < |tokens| && p != SP
    ensures var t := tokens[k];
            var q := if k == 0 then p else tokens[k - 1].first;
            && AllBlank(t.gap) && !IsBlank(t.first) && q != SP && (k > 0 ==> !IsBlank(q))
            && t.regexp == (t.first == SLASH && PrecedesRegexp(Held(q, t.gap)))
    decreases k
  {
    hide Held, IsBody, PrecedesRegexp;
    if k > 0 {
      WellAt(tokens[0].first, tokens[1..], k - 1);
    }
  }

  /**
   * Tokens that would merge stay apart if they are; others come together only to be kept apart
   * from the slash of a regular expression; and a line end that may matter stays one.
   */
  lemma KeepsApart(s: Bytes.bytes, signed: bool, k: nat)
    requires Tokens(s, signed).Ok? && k < |Tokens(s, signed).value|
    ensures var tokens := Tokens(s, signed).value;
            var t, again, q := tokens[k], Respaced(NL, tokens)[k], Before(tokens, k);
            && again.Text() == t.Text() && AllBlank(again.gap) && |again.gap| <= 1
            && (t.gap != [] && Merge(q, t.first) ==> again.gap != [])
            && (t.gap == [] && again.gap != [] ==> k == 0 || (t.regexp && (q == SLASH || q == STAR)))
            && (k > 0 && NL in t.gap && (IsAlphanum(q) || EndsLine(q)) ==>
                  (again.gap == [NL] <==> IsAlphanum(t.first) || StartsLine(t.first)))
            && (again.gap == [NL] ==> k == 0 || NL in t.gap)
  {
    hide Separator, Held, PlainTokens, WellLexed, IsAlphanum, EndsLine, StartsLine, PrecedesRegexp;
    TokensAreWell(s, signed);
    var tokens := Tokens(s, signed).value;
    hide Tokens, Respaced;
    RespacedAt(NL, tokens, k);
    WellAt(NL, tokens, k);
    var t, q := tokens[k], Before(tokens, k);
    SeparatorIsBlank(q, t.gap, t.first, t.regexp);
    SeparatorKeepsApart(q, t.gap, t.first);
    if k > 0 && NL in t.gap && (IsAlphanum(q) || EndsLine(q)) {
      SeparatorIsLineEnd(q, t.gap, t.first, t.regexp);
    }
  }

  /** There is no byte order mark: a line end comes before anything that could be one. */
  lemma NoMark(tokens: seq<Token>, signed: bool)
    requires WellLexed(NL, tokens) && AllPlain(Joined(NL, tokens), signed) && AllPlain(Joined(NL, tokens), false)
    ensures Start(Written(Joined(NL, tokens)), signed) == 0
  {
    hide WellLexed;
    if tokens != [] {
      var t := tokens[0];
      assert Joined(NL, tokens)[0] == (Separator(NL, t.gap, t.first, t.regexp) + t.Text())[0];
    }
  }

  /** The output is read as the same tokens again, exactly if no division sign has come to the end of a line. */
  lemma SameTokens(s: Bytes.bytes, signed: bool)
    requires Minified(s, signed).Ok?
    ensures var tokens := Tokens(s, signed).value;
            var t := Minified(s, signed).value;
            && AllPlain(t, false)
            && (Tokens(Written(t), signed) == Ok(Respaced(NL, tokens)) <==> !DividesLines(NL, tokens))
  {
    hide WellLexed, PlainTokens, AllPlain, Lex, Chars;
    TokensAreWell(s, signed);
    var tokens := Tokens(s, signed).value;
    var t := Minified(s, signed).value;
    hide Start, Joined;
    JoinedIsPlain(NL, tokens, signed);
    ReadWritten(t, signed);
    NoMark(tokens, signed);
    assert t[0..] == t;
    ReadAgain(t, 0, NL, tokens);
  }

  /** Then there is nothing left to do. */
  lemma MinifiedTwice(s: Bytes.bytes, signed: bool)
    requires Minified(s, signed).Ok? && !DividesLines(NL, Tokens(s, signed).value)
    ensures var t := Minified(s, signed).value;
            AllPlain(t, false) && Minified(Written(t), signed) == Ok(t)
  {
    hide WellLexed, PlainTokens, AllPlain;
    SameTokens(s, signed);
    TokensAreWell(s, signed);
    JoinedTwice(NL, Tokens(s, signed).value);
  }

  /** A closing brace, a line end and two divisions. */
  const DIVISIONS: seq<int> := [0x7d, NL, SLASH, 0x32, SLASH]
  const WITHOUT_LINE: seq<int> := [0x7d, SLASH, 0x32, SLASH]
  const FOUR_TOKENS: seq<Token> :=
    [Token([], 0x7d, [], false), Token([NL], SLASH, [], false), Token([], 0x32, [], false), Token([], SLASH, [], false)]
  const TWO_TOKENS: seq<Token> := [Token([], 0x7d, [], false), Token([], SLASH, [0x32, SLASH], true)]

  /** The line end is what makes a division of the first slash; without it there is a regular expression. */
  lemma DivisionsBecomeRegexp(signed: bool)
    ensures Tokens(Written(DIVISIONS), signed) == Ok(FOUR_TOKENS) && DividesLines(NL, FOUR_TOKENS)
    ensures Minified(Written(DIVISIONS), signed) == Ok(WITHOUT_LINE)
    ensures Tokens(Written(WITHOUT_LINE), signed) == Ok(TWO_TOKENS)
  {
    hide Lex;
    ReadDivisions();
    ReadRegexp();
    assert Chars(Written(DIVISIONS), signed) == DIVISIONS && Chars(Written(WITHOUT_LINE), signed) == WITHOUT_LINE;
    JoinDivisions();
  }

  lemma JoinDivisions()
    ensures Joined(NL, FOUR_TOKENS) == WITHOUT_LINE && DividesLines(NL, FOUR_TOKENS)
  {
    var last := [Token([], SLASH, [], false)];
    var two := [Token([], 0x32, [], false)] + last;
    var three := [Token([NL], SLASH, [], false)] + two;
    var four := [Token([], 0x7d, [], false)] + three;
    assert last[1..] == [] && two[1..] == last && three[1..] == two && four[1..] == three;
    assert Joined(0x32, last) == [SLASH];
    assert Joined(SLASH, two) == [0x32, SLASH];
    assert Joined(0x7d, three) == [SLASH, 0x32, SLASH];
    assert Joined(NL, four) == WITHOUT_LINE;
    assert four == FOUR_TOKENS;
    assert DividesLines(0x7d, three);
  }

  /** One token, and what is behind it. */
  lemma LexOne(r: seq<int>, p: int, gap: seq<int>, i: nat, end: nat, more: seq<Token>)
    requires i < end <= |r| && Next(r, i) == Ok(Read(r[i], i + 1)) && !IsBlank(r[i]) && r[i] != EOF
    requires LiteralEnd(r, Held(p, gap), r[i], i + 1) == Ok(end) && Lex(r, r[i], [], end) == Ok(more)
    ensures Lex(r, p, gap, i) == Ok([TokenOf(r, p, gap, r[i], i + 1, end)] + more)
  {
    hide LiteralEnd, Held, TokenOf, Next;
    assert Lex(r, p, gap, i) == Lexed(r, p, gap, r[i], i + 1);
  }

  lemma ReadDivisions()
    ensures Lex(DIVISIONS, NL, [], 0) == Ok(FOUR_TOKENS)
  {
    hide Lex, Lexed;
    var r := DIVISIONS;
    assert r[1..1] == r[3..3] == r[4..4] == r[5..5] == [] && [] + [NL] == [NL];
    var last := [Token([], SLASH, [], false)];
    assert last + [] == last;
    var two := [Token([], 0x32, [], false)] + last;
    var three := [Token([NL], SLASH, [], false)] + two;
    AtTheEnd(r, SLASH, 5);
    LexOne(r, 0x32, [], 4, 5, []);
    LexOne(r, SLASH, [], 3, 4, last);
    LexOne(r, 0x7d, [NL], 2, 3, two);
    LexBlank(r, 0x7d, [], 1);
    LexOne(r, NL, [], 0, 1, three);
    assert [Token([], 0x7d, [], false)] + three == FOUR_TOKENS;
  }

  lemma LexBlank(r: seq<int>, p: int, gap: seq<int>, i: nat)
    requires i < |r| && IsBlank(r[i])
    ensures Lex(r, p, gap, i) == Lex(r, p, gap + [r[i]], i + 1)
  {
    assert Lex(r, p, gap, i) == Lexed(r, p, gap, r[i], i + 1);
  }

  lemma ReadRegexp()
    ensures Lex(WITHOUT_LINE, NL, [], 0) == Ok(TWO_TOKENS)
  {
    hide Lex, Lexed;
    var r := WITHOUT_LINE;
    assert RegexpEnd(r, 2) == RegexpEnd(r, 3) == Ok(4);
    assert r[1..1] == [] && r[2..4] == [0x32, SLASH];
    var last := [Token([], SLASH, [0x32, SLASH], true)];
    assert last + [] == last;
    AtTheEnd(r, SLASH, 4);
    LexOne(r, 0x7d, [], 1, 4, []);
    LexOne(r, NL, [], 0, 1, last);
    assert [Token([], 0x7d, [], false)] + last == TWO_TOKENS;
  }

  /** What signed chars do to characters that are not ASCII: all of them but one become spaces, and that one ends the text. */
  lemma NotAscii(b: Bytes.byte)
    requires b >= 0x80
    ensures Cleaned(Widened(b, true)) == if b == 0xff then EOF else SP
    ensures Cleaned(Widened(b, false)) == b && IsAlphanum(b)
  {
  }
}
