// Text of a PCD header: ASCII, stripping, splitting into words, decimal numbers
// (scripts/map/downsample_pcd.py).

module PcdText {
  import opened Options

  type Byte = b: int | 0 <= b < 0x100

  // str.isspace on ASCII.
  predicate IsSpace(c: char) {
    '\t' <= c <= '\r' || '\U{1C}' <= c <= ' '
  }

  // Those are the tab, the line feed, the two next of their kind, the carriage return, the four
  // separators and the blank.
  lemma SpacesAre(c: char)
    ensures IsSpace(c) <==> c as int in {9, 10, 11, 12, 13, 28, 29, 30, 31, 32}
  {
  }

  ghost predicate IsPlain(w: string) {
    w != "" && forall i :: 0 <= i < |w| ==> !IsSpace(w[i])
  }

  ghost predicate ArePlain(words: seq<string>) {
    forall i :: 0 <= i < |words| ==> IsPlain(words[i])
  }

  predicate IsAscii(s: string) {
    forall i :: 0 <= i < |s| ==> s[i] < '\U{80}'
  }

  // ---- bytes ----

  function Encode(s: string): (r: seq<Byte>)
    requires IsAscii(s)
    ensures |r| == |s| && forall i :: 0 <= i < |r| ==> r[i] == s[i] as int
  {
    seq(|s|, i requires 0 <= i < |s| => s[i] as int)
  }

  // bytes.decode('ascii', 'replace')
  function Decode(b: seq<Byte>): (r: string)
    ensures |r| == |b| && forall i :: 0 <= i < |r| ==> if b[i] < 128 then r[i] as int == b[i] else r[i] == '\U{FFFD}'
  {
    seq(|b|, i requires 0 <= i < |b| => if b[i] < 0x80 then b[i] as char else '\U{FFFD}')
  }

  lemma DecodeEncode(s: string)
    requires IsAscii(s)
    ensures Decode(Encode(s)) == s
  {
  }

  lemma EncodeConcat(a: string, b: string)
    requires IsAscii(a) && IsAscii(b)
    ensures IsAscii(a + b) && Encode(a + b) == Encode(a) + Encode(b)
  {
  }

  // ---- strip ----

  function LStrip(s: string): (r: string)
    ensures |r| <= |s| && (r != "" ==> !IsSpace(r[0]))
  {
    if s != "" && IsSpace(s[0]) then LStrip(s[1..]) else s
  }

  function RStrip(s: string): string {
    if s != "" && IsSpace(s[|s| - 1]) then RStrip(s[..|s| - 1]) else s
  }

  function Strip(s: string): string {
    RStrip(LStrip(s))
  }

  // ---- words ----

  // The first index of c, |s| when there is none.
  function IndexOf(s: string, c: char): (n: nat)
    ensures n <= |s| && (n < |s| ==> s[n] == c) && forall i :: 0 <= i < n ==> s[i] != c
  {
    if s == "" || s[0] == c then 0 else 1 + IndexOf(s[1..], c)
  }

  // The length of the word s starts with.
  function WordLength(s: string): (n: nat)
    ensures n <= |s| && (n < |s| ==> IsSpace(s[n])) && forall i :: 0 <= i < n ==> !IsSpace(s[i])
  {
    if s == "" || IsSpace(s[0]) then 0 else 1 + WordLength(s[1..])
  }

  // str.split()
  function Words(s: string): seq<string>
    decreases |s|
  {
    var t := LStrip(s);
    if t == "" then []
    else
      var n := WordLength(t);
      assert n > 0;
      [t[..n]] + Words(t[n..])
  }

  function Join(words: seq<string>): string {
    if words == [] then "" else if |words| == 1 then words[0] else words[0] + " " + Join(words[1..])
  }

  lemma {:induction false} WordsArePlain(s: string)
    ensures ArePlain(Words(s))
    decreases |s|
  {
    var t := LStrip(s);
    if t != "" {
      WordsArePlain(t[WordLength(t)..]);
    }
  }

  // A word is read back up to the space after it.
  lemma FirstWord(w: string, rest: string)
    requires IsPlain(w) && (rest == "" || IsSpace(rest[0]))
    ensures Words(w + rest) == [w] + Words(rest)
  {
    var s := w + rest;
    assert s[0] == w[0];
    assert LStrip(s) == s;
    assert forall i :: 0 <= i < |w| ==> s[i] == w[i];
    assert rest != "" ==> s[|w|] == rest[0];
    assert WordLength(s) == |w|;
    assert s[..|w|] == w && s[|w|..] == rest;
  }

  lemma {:induction false} WordsOfJoin(words: seq<string>)
    requires ArePlain(words)
    ensures Words(Join(words)) == words
  {
    if words != [] {
      var tail := if |words| == 1 then "" else " " + Join(words[1..]);
      JoinStep(words, tail);
      WordsOfJoin(words[1..]);
      SpaceSkipped(Join(words[1..]));
      hide Words, Join;
      FirstWord(words[0], tail);
      assert words == [words[0]] + words[1..];
    }
  }

  lemma JoinStep(words: seq<string>, tail: string)
    requires words != [] && tail == if |words| == 1 then "" else " " + Join(words[1..])
    ensures Join(words) == words[0] + tail && (|words| == 1 ==> Join(words[1..]) == tail)
  {
  }

  lemma SpaceSkipped(s: string)
    ensures Words(" " + s) == Words(s)
  {
    assert (" " + s)[1..] == s;
  }

  // Words and single spaces only.
  lemma {:induction false} JoinIsInline(words: seq<string>)
    requires ArePlain(words)
    ensures forall i :: 0 <= i < |Join(words)| ==> Join(words)[i] == ' ' || !IsSpace(Join(words)[i])
    ensures words != [] ==> Join(words) != "" && !IsSpace(Join(words)[0]) && !IsSpace(Join(words)[|Join(words)| - 1])
    ensures (forall i :: 0 <= i < |words| ==> IsAscii(words[i])) ==> IsAscii(Join(words))
  {
    if |words| > 1 {
      JoinIsInline(words[1..]);
    }
  }

  // ---- decimal numbers ----

  function Digit(d: int): char
    requires 0 <= d < 10
  {
    (d + 48) as char
  }

  predicate IsDigit(c: char) {
    '0' <= c <= '9'
  }

  function Decimal(n: nat): string {
    if n < 10 then [Digit(n)] else Decimal(n / 10) + [Digit(n % 10)]
  }

  function ParseDigits(s: string): Option<nat> {
    if s == "" then Some(0)
    else
      var c, m := s[|s| - 1], |s| - 1;
      if !IsDigit(c) then None
      else
        match ParseDigits(s[..m])
        case None => None
        case Some(n) => Some(10 * n + (c as int - 48))
  }

  // Digits with single underscores between them.
  predicate IsNumeral(s: string) {
    && s != "" && IsDigit(s[0]) && IsDigit(s[|s| - 1])
    && (forall i :: 0 <= i < |s| ==> IsDigit(s[i]) || s[i] == '_')
    && (forall i :: 0 < i < |s| && s[i] == '_' ==> s[i - 1] != '_')
  }

  function Without(s: string, c: char): string {
    if s == "" then "" else Without(s[..|s| - 1], c) + if s[|s| - 1] == c then "" else [s[|s| - 1]]
  }

  // int(s) of a word: a numeral with an optional sign.
  function ParseInt(s: string): Option<int> {
    var signed := s != "" && (s[0] == '-' || s[0] == '+');
    var digits := if signed then s[1..] else s;
    if !IsNumeral(digits) then None
    else
      match ParseDigits(Without(digits, '_'))
      case None => None
      case Some(n) => var v: int := if signed && s[0] == '-' then -(n as int) else n; Some(v)
  }

  lemma {:induction false} NothingRemoved(s: string, c: char)
    requires forall i :: 0 <= i < |s| ==> s[i] != c
    ensures Without(s, c) == s
  {
    if s != "" { NothingRemoved(s[..|s| - 1], c); }
  }

  lemma {:induction false} ParseDecimal(n: nat)
    ensures ParseDigits(Decimal(n)) == Some(n) && Decimal(n) != ""
    ensures forall i :: 0 <= i < |Decimal(n)| ==> IsDigit(Decimal(n)[i])
  {
    var m := |Decimal(n)| - 1;
    if n < 10 {
      assert Decimal(n)[..m] == "";
    } else {
      ParseDecimal(n / 10);
      assert Decimal(n)[..m] == Decimal(n / 10);
      assert n == 10 * (n / 10) + n % 10;
    }
  }

  lemma DecimalIsPlain(n: nat)
    ensures IsPlain(Decimal(n)) && IsAscii(Decimal(n))
  {
    ParseDecimal(n);
    hide Decimal;
  }

  lemma DecimalReadsBack(n: nat)
    ensures ParseInt(Decimal(n)) == Some(n)
  {
    ParseDecimal(n);
    hide Decimal;
    var s := Decimal(n);
    NothingRemoved(s, '_');
    hide Without;
    assert IsNumeral(s);
  }

  // A sign in front of a number, and of a printed one.
  lemma Signs(s: string)
    requires s != "" && IsDigit(s[0])
    ensures ParseInt("+" + s) == ParseInt(s)
    ensures ParseInt("-" + s) == match ParseInt(s) case None => None case Some(v) => Some(-v)
  {
    hide IsNumeral, ParseDigits, Without;
    assert ("+" + s)[1..] == s && ("-" + s)[1..] == s;
  }

  lemma SignedReadsBack(n: nat)
    ensures ParseInt("+" + Decimal(n)) == Some(n as int) && ParseInt("-" + Decimal(n)) == Some(-(n as int))
  {
    ParseDecimal(n);
    DecimalReadsBack(n);
    hide ParseInt, Decimal;
    Signs(Decimal(n));
  }
}
