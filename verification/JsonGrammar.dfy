/** The texts that the parser accepts, described by a grammar of their own, and the proof that it accepts exactly
    these and reads each as its value. */
module JsonGrammar {
  import opened Common
  import opened Bytes
  import opened Json

  // ---------------------------------------------------------------------- UTF-8

  predicate Continues(b: byte) {
    0x80 <= b < 0xC0
  }

  /** The six bits that a byte behind the lead byte adds to `high`. */
  function Add(high: int, b: byte): int {
    high * 64 + (b as int - 0x80)
  }

  /** The code point at the front of `s` and the length of its encoding, section 3 of RFC 3629: the lead byte tells
      the length and the high bits, each further byte holds six more. */
  function DecodeUtf8(s: seq<byte>): Option<(int, nat)> {
    if s == [] then None
    else if s[0] < 0x80 then Some((s[0], 1))
    else if 0xC0 <= s[0] < 0xE0 && |s| >= 2 && Continues(s[1]) then Some((Add(s[0] - 0xC0, s[1]), 2))
    else if 0xE0 <= s[0] < 0xF0 && |s| >= 3 && Continues(s[1]) && Continues(s[2]) then
      Some((Add(Add(s[0] - 0xE0, s[1]), s[2]), 3))
    else if 0xF0 <= s[0] < 0xF8 && |s| >= 4 && Continues(s[1]) && Continues(s[2]) && Continues(s[3]) then
      Some((Add(Add(Add(s[0] - 0xF0, s[1]), s[2]), s[3]), 4))
    else None
  }

  /** How many bytes the shortest encoding takes. */
  function Utf8Length(cp: int): nat {
    if cp < 0x80 then 1 else if cp < 0x800 then 2 else if cp < 0x1_0000 then 3 else 4
  }

  /** `out` is the UTF-8 form of the code point. */
  predicate IsUtf8(out: seq<byte>, cp: int) {
    |out| == Utf8Length(cp) && DecodeUtf8(out) == Some((cp, |out|))
  }

  /** The bytes made for a code point are its UTF-8 form, and no others are. */
  lemma {:induction false} Utf8Exact(cp: nat, out: seq<byte>)
    requires cp < 0x11_0000
    ensures IsUtf8(out, cp) <==> out == Utf8(cp)
  {
    Utf8Decodes(cp);
    if IsUtf8(out, cp) {
      Utf8Unique(out, Utf8(cp), cp);
    }
  }

  lemma {:induction false} Utf8Decodes(cp: nat)
    requires cp < 0x11_0000
    ensures IsUtf8(Utf8(cp), cp)
  {
    Sextets(cp);
    Sextets(cp / 64);
    Sextets(cp / 64 / 64);
    assert cp / 0x1000 == cp / 64 / 64 && cp / 0x4_0000 == cp / 64 / 64 / 64;
  }

  lemma {:induction false} Sextets(x: nat)
    ensures Add(x / 64, 0x80 + x % 64) == x && Continues(0x80 + x % 64)
  {
  }

  lemma {:induction false} Utf8Unique(a: seq<byte>, b: seq<byte>, cp: int)
    requires IsUtf8(a, cp) && IsUtf8(b, cp)
    ensures a == b
  {
    match |a|
    case 1 =>
    case 2 => SameSextet(a[0] - 0xC0, a[1], b[0] - 0xC0, b[1]);
    case 3 =>
      SameSextet(Add(a[0] - 0xE0, a[1]), a[2], Add(b[0] - 0xE0, b[1]), b[2]);
      SameSextet(a[0] - 0xE0, a[1], b[0] - 0xE0, b[1]);
    case _ =>
      SameSextet(Add(Add(a[0] - 0xF0, a[1]), a[2]), a[3], Add(Add(b[0] - 0xF0, b[1]), b[2]), b[3]);
      SameSextet(Add(a[0] - 0xF0, a[1]), a[2], Add(b[0] - 0xF0, b[1]), b[2]);
      SameSextet(a[0] - 0xF0, a[1], b[0] - 0xF0, b[1]);
  }

  lemma {:induction false} SameSextet(x: int, a: byte, y: int, b: byte)
    requires Continues(a) && Continues(b) && Add(x, a) == Add(y, b)
    ensures x == y && a == b
  {
  }

  // -------------------------------------------------------------------- strings

  /** White space as `isspace` sees it. */
  predicate White(b: byte) {
    b == 9 || b == 10 || b == 11 || b == 12 || b == 13 || b == 32
  }

  /** Nothing but white space from `i` to `j`. */
  predicate Spaces(s: seq<byte>, i: nat, j: nat)
    decreases j - i
  {
    i <= j <= |s| && (i == j || (White(s[i]) && Spaces(s, i + 1, j)))
  }

  /** The value of a hexadecimal digit, in either case. */
  function HexDigitValue(b: byte): Option<int> {
    if 48 <= b <= 57 then Some(b - 48)
    else if 65 <= b <= 70 then Some(b - 65 + 10)
    else if 97 <= b <= 102 then Some(b - 97 + 10)
    else None
  }

  /** The number of four hexadecimal digits. */
  function FourDigits(s: seq<byte>, i: nat): Option<int> {
    if i + 4 > |s| then None
    else
      var a, b, c, d := HexDigitValue(s[i]), HexDigitValue(s[i + 1]), HexDigitValue(s[i + 2]), HexDigitValue(s[i + 3]);
      if a.None? || b.None? || c.None? || d.None? then None
      else Some(((a.value * 16 + b.value) * 16 + c.value) * 16 + d.value)
  }

  /** The escapes of one letter: quotation mark, backslash, slash, b, f, n, r and t. */
  function LetterEscapes(): map<byte, byte> {
    map[34 := 34, 92 := 92, 47 := 47, 98 := 8, 102 := 12, 110 := 10, 114 := 13, 116 := 9]
  }

  predicate HighSurrogate(x: int) {
    0xD800 <= x < 0xDC00
  }

  predicate LowSurrogate(x: int) {
    0xDC00 <= x < 0xE000
  }

  /** The number of an escape `\u` with four digits. */
  function Unit(s: seq<byte>, i: nat): Option<int> {
    if i + 6 <= |s| && s[i] == 92 && s[i + 1] == 117 then FourDigits(s, i + 2) else None
  }

  /** An escape of a code point. */
  predicate Escaped(s: seq<byte>, i: nat, out: seq<byte>) {
    var x := Unit(s, i);
    x.Some? && !HighSurrogate(x.value) && !LowSurrogate(x.value) && IsUtf8(out, x.value)
  }

  /** The code point of a surrogate pair. */
  function PairValue(x: int, y: int): int {
    0x1_0000 + (x - 0xD800) * 1024 + (y - 0xDC00)
  }

  /** Two escapes that form a surrogate pair. */
  predicate Paired(s: seq<byte>, i: nat, out: seq<byte>) {
    var x, y := Unit(s, i), Unit(s, i + 6);
    && x.Some? && HighSurrogate(x.value) && y.Some? && LowSurrogate(y.value)
    && IsUtf8(out, PairValue(x.value, y.value))
  }

  /** The bytes from `i` to `j` are one character of a string and stand for `out`: a byte that is no control character,
      quotation mark or backslash; an escape of one letter; one of a code point; or a surrogate pair. */
  predicate Piece(s: seq<byte>, i: nat, j: nat, out: seq<byte>) {
    i < j <= |s| &&
    (|| (j == i + 1 && s[i] >= 32 && s[i] != 34 && s[i] != 92 && out == [s[i]])
     || (j == i + 2 && s[i] == 92 && s[i + 1] in LetterEscapes() && out == [LetterEscapes()[s[i + 1]]])
     || (j == i + 6 && Escaped(s, i, out))
     || (j == i + 12 && Paired(s, i, out)))
  }

  /** The characters from `i` to `end` spell `t`. */
  ghost predicate Chars(t: seq<byte>, s: seq<byte>, i: nat, end: nat)
    decreases end - i, 1
  {
    (i == end && t == []) || CharAndMore(t, s, i, end)
  }

  /** A character and those behind it. */
  ghost predicate CharAndMore(t: seq<byte>, s: seq<byte>, i: nat, end: nat)
    decreases end - i, 0
  {
    exists j: nat, k: nat :: i < j <= end && k <= |t| && Piece(s, i, j, t[..k]) && Chars(t[k..], s, j, end)
  }

  /** A quoted string. */
  ghost predicate StringStands(t: seq<byte>, s: seq<byte>, i: nat, end: nat) {
    i + 2 <= end <= |s| && s[i] == 34 && s[end - 1] == 34 && Chars(t, s, i + 1, end - 1)
  }

  lemma {:induction false} HexDigitsAgree(b: byte)
    ensures HexDigitValue(b) == if HexValue(b) < 0 then None else Some(HexValue(b))
  {
  }

  lemma {:induction false} Hex4Agrees(s: seq<byte>, i: nat)
    ensures match Hex4(s, i) case Some(x) => FourDigits(s, i) == Some(x) case None => FourDigits(s, i) == None
  {
    HexDigitsAgree(At(s, i));
    HexDigitsAgree(At(s, i + 1));
    HexDigitsAgree(At(s, i + 2));
    HexDigitsAgree(At(s, i + 3));
  }

  /** The string contents run from `i` to the quotation mark at `end`. */
  predicate Inside(s: seq<byte>, i: nat, end: nat) {
    i <= end < |s| && s[end] == 34 && Scan(s, i) == Some(end + 1)
  }

  lemma {:induction false} ScanDigits(s: seq<byte>, i: nat)
    requires FourDigits(s, i).Some?
    ensures Scan(s, i) == Scan(s, i + 4)
  {
    assert Scan(s, i) == Scan(s, i + 1);
    assert Scan(s, i + 1) == Scan(s, i + 2);
    assert Scan(s, i + 2) == Scan(s, i + 3);
    assert Scan(s, i + 3) == Scan(s, i + 4);
  }

  lemma {:induction false} ScanUnit(s: seq<byte>, i: nat)
    requires Unit(s, i).Some?
    ensures Scan(s, i) == Scan(s, i + 6)
  {
    ScanDigits(s, i + 2);
  }

  /** The scan for the closing quotation mark steps over whole characters. */
  lemma {:induction false} ScanPiece(s: seq<byte>, i: nat, j: nat, out: seq<byte>)
    requires Piece(s, i, j, out)
    ensures Scan(s, i) == Scan(s, j)
  {
    if j == i + 6 && Escaped(s, i, out) {
      ScanUnit(s, i);
    } else if j == i + 12 && Paired(s, i, out) {
      ScanUnit(s, i);
      ScanUnit(s, i + 6);
    }
  }

  lemma {:induction false} UnitIs(s: seq<byte>, i: nat)
    requires i + 1 < |s| && s[i] == BACKSLASH && s[i + 1] == 117
    ensures match Hex4(s, i + 2) case Some(x) => Unit(s, i) == Some(x) case None => Unit(s, i) == None
  {
    Hex4Agrees(s, i + 2);
  }

  lemma {:induction false} UnitHex(s: seq<byte>, i: nat) returns (x: nat)
    requires Unit(s, i).Some?
    ensures Unit(s, i) == Some(x) && Hex4(s, i + 2) == Some(x) && x < 0x1_0000
    ensures At(s, i) == BACKSLASH && At(s, i + 1) == 117
  {
    UnitIs(s, i);
    x := Hex4(s, i + 2).value;
  }

  lemma {:induction false} EscapedProcessed(s: seq<byte>, i: nat, out: seq<byte>, end: nat)
    requires Escaped(s, i, out) && i + 6 <= end
    ensures Process(s, i, end) == Prepend(out, Process(s, i + 6, end))
  {
    var x := UnitHex(s, i);
    Utf8Exact(x, out);
    assert Process(s, i, end) == ProcessUtf16(s, i + 2, end);
  }

  lemma {:induction false} PairDecoded(s: seq<byte>, i: nat, x: nat, y: nat, end: nat)
    requires i + 10 <= |s| && Hex4(s, i) == Some(x) && Hex4(s, i + 6) == Some(y)
    requires HighSurrogate(x) && LowSurrogate(y) && At(s, i + 4) == BACKSLASH && At(s, i + 5) == 117
    ensures ProcessUtf16(s, i, end) == Prepend(Utf8(PairValue(x, y)), Process(s, i + 10, end))
  {
  }

  lemma {:induction false} PairedProcessed(s: seq<byte>, i: nat, out: seq<byte>, end: nat)
    requires Paired(s, i, out) && i + 12 <= end
    ensures Process(s, i, end) == Prepend(out, Process(s, i + 12, end))
  {
    var x := UnitHex(s, i);
    var y := UnitHex(s, i + 6);
    Utf8Exact(PairValue(x, y), out);
    PairDecoded(s, i + 2, x, y, end);
    assert Process(s, i, end) == ProcessUtf16(s, i + 2, end);
  }

  lemma {:induction false} PlainProcessed(s: seq<byte>, i: nat, j: nat, out: seq<byte>, end: nat)
    requires Piece(s, i, j, out) && j <= end && j <= i + 2
    ensures Process(s, i, end) == Prepend(out, Process(s, j, end))
  {
  }

  /** One character is decoded as what it stands for. */
  lemma {:induction false} PieceProcessed(s: seq<byte>, i: nat, j: nat, out: seq<byte>, end: nat)
    requires Piece(s, i, j, out) && j <= end
    ensures Process(s, i, end) == Prepend(out, Process(s, j, end))
  {
    if j <= i + 2 {
      PlainProcessed(s, i, j, out, end);
    } else if j == i + 6 {
      EscapedProcessed(s, i, out, end);
    } else {
      PairedProcessed(s, i, out, end);
    }
  }

  lemma {:induction false} CharsRead(t: seq<byte>, s: seq<byte>, i: nat, end: nat)
    requires Chars(t, s, i, end) && i <= end < |s| && s[end] == 34
    ensures Scan(s, i) == Some(end + 1) && Process(s, i, end) == Some(t)
    decreases end - i
  {
    if !(i == end && t == []) {
      assert CharAndMore(t, s, i, end);
      var j: nat, k: nat :| i < j <= end && k <= |t| && Piece(s, i, j, t[..k]) && Chars(t[k..], s, j, end);
      ScanPiece(s, i, j, t[..k]);
      PieceProcessed(s, i, j, t[..k], end);
      CharsRead(t[k..], s, j, end);
      assert t[..k] + t[k..] == t;
    }
  }

  /** A quoted string is read as what it spells. */
  lemma {:induction false} StringRead(t: seq<byte>, s: seq<byte>, i: nat, end: nat)
    requires StringStands(t, s, i, end)
    ensures ParseQuoted(s, i) == Some((t, end))
  {
    CharsRead(t, s, i + 1, end - 1);
  }

  // and the other way round

  lemma {:induction false} NextEscaped(s: seq<byte>, i: nat, end: nat) returns (j: nat, out: seq<byte>)
    requires i + 1 < |s| && s[i] == BACKSLASH && s[i + 1] == 117 && ProcessUtf16(s, i + 2, end).Some?
    ensures Piece(s, i, j, out)
  {
    UnitIs(s, i);
    var x := Unit(s, i).value;
    if HighSurrogate(x) {
      UnitIs(s, i + 6);
      var y := Unit(s, i + 6).value;
      j, out := i + 12, Utf8(PairValue(x, y));
      Utf8Decodes(PairValue(x, y));
    } else {
      j, out := i + 6, Utf8(x);
      Utf8Decodes(x);
    }
  }

  /** Whatever the decoder takes for a character is one. */
  lemma {:induction false} NextPiece(s: seq<byte>, i: nat, end: nat) returns (j: nat, out: seq<byte>)
    requires Inside(s, i, end) && i < end && Process(s, i, end).Some?
    ensures Piece(s, i, j, out)
  {
    if s[i] != BACKSLASH {
      j, out := i + 1, [s[i]];
    } else if s[i + 1] != 117 {
      j, out := i + 2, [Unescape(s[i + 1]).value];
    } else {
      j, out := NextEscaped(s, i, end);
    }
  }

  lemma {:induction false} CharsSound(s: seq<byte>, i: nat, end: nat)
    requires Inside(s, i, end) && Process(s, i, end).Some?
    ensures Chars(Process(s, i, end).value, s, i, end)
    decreases end - i
  {
    if i < end {
      var j, out := NextPiece(s, i, end);
      ScanPiece(s, i, j, out);
      PieceProcessed(s, i, j, out, end);
      CharsSound(s, j, end);
      var rest := Process(s, j, end).value;
      assert (out + rest)[..|out|] == out && (out + rest)[|out|..] == rest;
      assert CharAndMore(out + rest, s, i, end);
    }
  }

  lemma {:induction false} ScanEnds(s: seq<byte>, i: nat)
    requires i <= |s| && Scan(s, i).Some?
    ensures Inside(s, i, Scan(s, i).value - 1)
    decreases |s| - i
  {
    if At(s, i) == BACKSLASH {
      ScanEnds(s, i + 2);
    } else if At(s, i) != QUOTE {
      ScanEnds(s, i + 1);
    }
  }

  /** Whatever is read as a string is one. */
  lemma {:induction false} StringSound(s: seq<byte>, i: nat)
    requires ParseQuoted(s, i).Some?
    ensures var (t, end) := ParseQuoted(s, i).value; StringStands(t, s, i, end)
  {
    ScanEnds(s, i + 1);
    CharsSound(s, i + 1, ParseQuoted(s, i).value.1 - 1);
  }

  // -------------------------------------------------------------------- values

  predicate DigitAt(s: seq<byte>, i: nat) {
    i < |s| && 48 <= s[i] <= 57
  }

  /** A byte of this set is at `i`. */
  predicate OneAt(s: seq<byte>, i: nat, bytes: set<byte>) {
    i < |s| && s[i] in bytes
  }

  /** Digits from `i` to `end` go on with a decimal point, an exponent, or, behind a single zero, as hexadecimal. */
  predicate GoesOn(s: seq<byte>, i: nat, end: nat) {
    || OneAt(s, end, {46})
    || (OneAt(s, end, {69, 101}) && (DigitAt(s, end + 1) || (OneAt(s, end + 1, {43, 45}) && DigitAt(s, end + 2))))
    || (end == i + 1 && OneAt(s, i, {48}) && OneAt(s, end, {88, 120}) &&
        (HexAt(s, end + 1) || (OneAt(s, end + 1, {46}) && HexAt(s, end + 2))))
  }

  predicate HexAt(s: seq<byte>, i: nat) {
    i < |s| && HexDigitValue(s[i]).Some?
  }

  /** At `i` a number begins, after its sign: with a digit, a point and a digit, "inf" or "nan". */
  predicate NumberBegins(s: seq<byte>, i: nat) {
    || DigitAt(s, i)
    || (OneAt(s, i, {46}) && DigitAt(s, i + 1))
    || (OneAt(s, i, {73, 105}) && OneAt(s, i + 1, {78, 110}) && OneAt(s, i + 2, {70, 102}))
    || (OneAt(s, i, {78, 110}) && OneAt(s, i + 1, {65, 97}) && OneAt(s, i + 2, {78, 110}))
  }

  lemma {:induction false} GoesOnExact(s: seq<byte>, i: nat, end: nat)
    requires i < end <= |s|
    ensures GoesOn(s, i, end) <==> ReadsOn(s, i, end)
  {
  }

  lemma {:induction false} NumberBeginsExact(s: seq<byte>, i: nat)
    ensures NumberBegins(s, i) <==> Converts(s, i)
  {
  }

  /** The decimal digits from `i` to `end`, at least one and none superfluous, are all of a number and spell `n`. */
  predicate DigitsStand(n: int, s: seq<byte>, i: nat, end: nat) {
    && i < end <= |s| && (forall k :: i <= k < end ==> 48 <= s[k] <= 57) && !DigitAt(s, end)
    && (s[i] == 48 ==> end == i + 1) && n == DigitsValue(s, i, end) && !GoesOn(s, i, end)
  }

  /** An integer, or a minus sign behind which there is nothing to convert: that counts as 0 and is not passed over. */
  predicate NumberStands(n: int, s: seq<byte>, i: nat, end: nat) {
    || DigitsStand(n, s, i, end)
    || (At(s, i) == 45 && DigitsStand(-n, s, i + 1, end))
    || (At(s, i) == 45 && !NumberBegins(s, i + 1) && n == 0 && end == i)
  }

  predicate TokenStands(token: seq<byte>, s: seq<byte>, i: nat, end: nat) {
    end == i + |token| && end <= |s| && s[i..end] == token
  }

  /** The bytes from `i` to `end` are a value without white space in front. */
  ghost predicate Stands(v: Json, s: seq<byte>, i: nat, end: nat)
    decreases v, 2, 0, 0
  {
    && i < |s| && i <= end <= |s|
    && match v
       case Null => TokenStands([110, 117, 108, 108], s, i, end)
       case Bool(b) => TokenStands(if b then [116, 114, 117, 101] else [102, 97, 108, 115, 101], s, i, end)
       case Number(n) => NumberStands(n, s, i, end)
       case Str(t) => StringStands(t, s, i, end)
       case Arr(_) => ArrayStands(v, s, i, end)
       case Obj(_) => ObjectStands(v, s, i, end)
  }

  ghost predicate ArrayStands(v: Json, s: seq<byte>, i: nat, end: nat)
    requires v.Arr? && i < |s| && end <= |s|
    decreases v, 1, |v.items| + 1, 0
  {
    && i + 2 <= end && s[i] == 91 && s[end - 1] == 93
    && (if v.items == [] then Spaces(s, i + 1, end - 1) else ItemsFrom(v, 0, s, i + 1, end - 1))
  }

  ghost predicate ObjectStands(v: Json, s: seq<byte>, i: nat, end: nat)
    requires v.Obj? && i < |s| && end <= |s|
    decreases v, 1, |v.members| + 1, 0
  {
    && i + 2 <= end && s[i] == 123 && s[end - 1] == 125
    && (if v.members == [] then Spaces(s, i + 1, end - 1) else MembersFrom(v, 0, s, i + 1, end - 1))
  }

  ghost predicate ItemsFrom(v: Json, k: nat, s: seq<byte>, i: nat, end: nat)
    requires v.Arr? && k < |v.items|
    decreases v, 1, |v.items| - k, 2
  {
    exists a: nat :: Spaces(s, i, a) && ItemsStand(v, k, s, a, end)
  }

  /** Item `k` and those behind it, up to the closing bracket at `end`. */
  ghost predicate ItemsStand(v: Json, k: nat, s: seq<byte>, i: nat, end: nat)
    requires v.Arr? && k < |v.items|
    decreases v, 1, |v.items| - k, 1
  {
    exists j: nat, b: nat :: Stands(v.items[k], s, i, j) && Spaces(s, j, b) && MoreItems(v, k, s, b, end)
  }

  /** What follows item `k`: nothing, a comma too many, or a comma and the next item. */
  ghost predicate MoreItems(v: Json, k: nat, s: seq<byte>, b: nat, end: nat)
    requires v.Arr? && k < |v.items|
    decreases v, 1, |v.items| - k, 0
  {
    && b <= end < |s|
    && if k + 1 == |v.items| then b == end || (s[b] == 44 && Spaces(s, b + 1, end))
       else s[b] == 44 && ItemsFrom(v, k + 1, s, b + 1, end)
  }

  /** A name and its colon, from `i` to `at`. */
  ghost predicate NameStands(key: seq<byte>, s: seq<byte>, i: nat, at: nat) {
    && 1 <= at <= |s| && s[at - 1] == 58 && 0 !in key
    && exists p: nat :: StringStands(key, s, i, p) && Spaces(s, p, at - 1)
  }

  ghost predicate MembersFrom(v: Json, k: nat, s: seq<byte>, i: nat, end: nat)
    requires v.Obj? && k < |v.members|
    decreases v, 1, |v.members| - k, 2
  {
    exists a: nat :: Spaces(s, i, a) && MembersStand(v, k, s, a, end)
  }

  /** Member `k` and those behind it, up to the closing brace at `end`. */
  ghost predicate MembersStand(v: Json, k: nat, s: seq<byte>, i: nat, end: nat)
    requires v.Obj? && k < |v.members|
    decreases v, 1, |v.members| - k, 1, 2
  {
    exists at: nat :: NameStands(v.members[k].key, s, i, at) && MemberFrom(v, k, s, at, end)
  }

  /** Behind the colon. */
  ghost predicate MemberFrom(v: Json, k: nat, s: seq<byte>, at: nat, end: nat)
    requires v.Obj? && k < |v.members|
    decreases v, 1, |v.members| - k, 1, 1
  {
    exists r: nat :: Spaces(s, at, r) && MemberValue(v, k, s, r, end)
  }

  ghost predicate MemberValue(v: Json, k: nat, s: seq<byte>, r: nat, end: nat)
    requires v.Obj? && k < |v.members|
    decreases v, 1, |v.members| - k, 1, 0
  {
    exists j: nat, b: nat ::
      Stands(v.members[k].value, s, r, j) && Spaces(s, j, b) && MoreMembers(v, k, s, b, end)
  }

  ghost predicate MoreMembers(v: Json, k: nat, s: seq<byte>, b: nat, end: nat)
    requires v.Obj? && k < |v.members|
    decreases v, 1, |v.members| - k, 0
  {
    && b <= end < |s|
    && if k + 1 == |v.members| then b == end || (s[b] == 44 && Spaces(s, b + 1, end))
       else s[b] == 44 && MembersFrom(v, k + 1, s, b + 1, end)
  }

  /** One of the first `n` members has this name. */
  ghost predicate Uses(members: seq<Member>, key: seq<byte>, n: nat) {
    exists i: nat :: i < n && i < |members| && members[i].key == key
  }

  /** From `from` on no member has the name of one before it. */
  ghost predicate NewNames(members: seq<Member>, from: nat)
    decreases |members| - from
  {
    from >= |members| || (!Uses(members, members[from].key, from) && NewNames(members, from + 1))
  }

  /** No object in the value has two members of one name. */
  ghost predicate NamesDiffer(v: Json)
    decreases v
  {
    match v
    case Arr(items) => forall i :: 0 <= i < |items| ==> NamesDiffer(items[i])
    case Obj(members) =>
      && NewNames(members, 0)
      && (forall i :: 0 <= i < |members| ==> NamesDiffer(members[i].value))
    case _ => true
  }

  // ----------------------------------------------------------- what stands is read

  lemma {:induction false} SkipsTo(s: seq<byte>, i: nat, j: nat)
    requires Spaces(s, i, j) && !White(At(s, j))
    ensures SkipSpace(s, i) == j
    decreases j - i
  {
    if i < j {
      SkipsTo(s, i + 1, j);
    }
  }

  lemma {:induction false} Skips(s: seq<byte>, i: nat)
    requires i <= |s|
    ensures Spaces(s, i, SkipSpace(s, i)) && !White(At(s, SkipSpace(s, i)))
    decreases |s| - i
  {
    if IsSpace(At(s, i)) {
      Skips(s, i + 1);
    }
  }

  lemma {:induction false} RunsTo(s: seq<byte>, i: nat, end: nat)
    requires i <= end <= |s| && (forall k :: i <= k < end ==> IsDigit(s[k])) && !IsDigit(At(s, end))
    ensures Run(s, i) == end
    decreases end - i
  {
    if i < end {
      RunsTo(s, i + 1, end);
    }
  }

  lemma {:induction false} Runs(s: seq<byte>, i: nat)
    requires i <= |s|
    ensures var end := Run(s, i); !IsDigit(At(s, end)) && forall k :: i <= k < end ==> IsDigit(s[k])
    decreases |s| - i
  {
    if IsDigit(At(s, i)) {
      Runs(s, i + 1);
    }
  }

  /** A number is read exactly if it stands there. */
  lemma {:induction false} NumberExact(n: int, s: seq<byte>, i: nat, end: nat)
    requires i < |s| && (s[i] == MINUS || IsDigit(s[i]))
    ensures ParseNumber(s, i) == Some((Number(n), end)) <==> NumberStands(n, s, i, end)
  {
    var start := if s[i] == MINUS then i + 1 else i;
    Runs(s, start);
    NumberBeginsExact(s, start);
    if start < Run(s, start) {
      GoesOnExact(s, start, Run(s, start));
    }
    if NumberStands(n, s, i, end) && end > i {
      RunsTo(s, start, end);
    }
  }

  lemma {:induction false} SameCons(a: seq<byte>, b: seq<byte>)
    requires |a| == |b| > 0
    ensures a == b <==> a[0] == b[0] && a[1..] == b[1..]
  {
    if a[0] == b[0] && a[1..] == b[1..] {
      assert a == [a[0]] + a[1..] && b == [b[0]] + b[1..];
    }
  }

  lemma {:induction false} TokenMatches(s: seq<byte>, i: nat, token: seq<byte>, k: nat)
    requires k <= |token| && 0 !in token && i <= |s|
    ensures Matches(s, i, token, k) <==> i + |token| - k <= |s| && s[i..i + |token| - k] == token[k..]
    decreases |token| - k
  {
    if k < |token| && i < |s| {
      TokenMatches(s, i + 1, token, k + 1);
      if i + |token| - k <= |s| {
        var a, b := s[i..i + |token| - k], token[k..];
        assert a[1..] == s[i + 1..i + |token| - k] && b[1..] == token[k + 1..];
        SameCons(a, b);
      }
    }
  }

  lemma {:induction false} TokenExact(s: seq<byte>, i: nat, token: seq<byte>)
    requires 0 !in token && i <= |s|
    ensures Matches(s, i, token, 0) <==> TokenStands(token, s, i, i + |token|)
  {
    TokenMatches(s, i, token, 0);
    assert token[0..] == token;
  }

  // completeness

  /** The expected result: the value itself while its nesting is admitted, and failure beyond. */
  function Expected(v: Json, end: nat, deepest: nat): Parsed {
    if deepest <= MAX_NESTING then Some((v, end)) else None
  }

  /** No value begins with white space, a closing bracket or the end of the text. */
  predicate Begins(b: byte) {
    !White(b) && b != CLOSE_ARRAY && b != CLOSE_OBJECT && b != 0
  }

  lemma {:induction false} StandsBegins(v: Json, s: seq<byte>, i: nat, end: nat)
    requires Stands(v, s, i, end)
    ensures Begins(At(s, i))
  {
    assert v.Arr? ==> ArrayStands(v, s, i, end);
    assert v.Obj? ==> ObjectStands(v, s, i, end);
  }

  /** A scalar is read exactly if it stands there. */
  lemma {:induction false} ScalarExact(v: Json, s: seq<byte>, i: nat, end: nat)
    requires i < |s| && !v.Arr? && !v.Obj?
    ensures Stands(v, s, i, end) ==> ParseScalar(s, i) == Some((v, end))
    ensures ParseScalar(s, i) == Some((v, end)) ==> Stands(v, s, i, end)
  {
    TokenExact(s, i, TRUE_TEXT);
    TokenExact(s, i, FALSE_TEXT);
    TokenExact(s, i, NULL_TEXT);
    if v.Number? && (s[i] == MINUS || IsDigit(s[i])) {
      NumberExact(v.n, s, i, end);
    }
    if v.Str? && StringStands(v.s, s, i, end) {
      StringRead(v.s, s, i, end);
    }
    if s[i] == QUOTE && ParseQuoted(s, i).Some? {
      StringSound(s, i);
    }
  }

  /** A value behind white space. */
  ghost predicate ValueStands(v: Json, s: seq<byte>, i: nat, end: nat) {
    exists a: nat :: Spaces(s, i, a) && Stands(v, s, a, end)
  }

  lemma {:induction false} ParsesAt(s: seq<byte>, i: nat, a: nat, n: nat)
    requires Spaces(s, i, a) && !White(At(s, a)) && n <= MAX_NESTING
    ensures ParseValue(s, i, n) == ParseAt(s, a, n)
  {
    SkipsTo(s, i, a);
  }

  // arrays

  ghost predicate ArrayReads(s: seq<byte>, i: nat, n: nat, done: seq<Json>, r: Parsed) {
    i <= |s| && ArrayLoop(s, i, n, done) == r
  }

  lemma {:induction false} ArrayEnds(s: seq<byte>, i: nat, n: nat, done: seq<Json>, v: Json, j: nat, b: nat, c: nat)
    requires i <= |s| && At(s, i) != 0 && ParseValue(s, i, n) == Some((v, j)) && Spaces(s, j, b)
    requires At(s, c) == CLOSE_ARRAY && (c == b || (At(s, b) == COMMA && Spaces(s, b + 1, c)))
    ensures ArrayLoop(s, i, n, done) == Some((Arr(done + [v]), c + 1))
  {
    SkipsTo(s, j, b);
    if c != b {
      SkipsTo(s, b + 1, c);
    }
  }

  lemma {:induction false} ArrayGoesOn(s: seq<byte>, i: nat, n: nat, done: seq<Json>, v: Json, j: nat, b: nat, c: nat)
    requires i <= |s| && At(s, i) != 0 && ParseValue(s, i, n) == Some((v, j)) && Spaces(s, j, b)
    requires At(s, b) == COMMA && Spaces(s, b + 1, c) && Begins(At(s, c))
    ensures ArrayLoop(s, i, n, done) == ArrayLoop(s, c, n, done + [v])
  {
    SkipsTo(s, j, b);
    SkipsTo(s, b + 1, c);
  }

  lemma {:induction false} FirstItem(v: Json, k: nat, s: seq<byte>, i: nat, end: nat) returns (a: nat)
    requires v.Arr? && k < |v.items| && ItemsFrom(v, k, s, i, end)
    ensures Spaces(s, i, a) && ItemsStand(v, k, s, a, end)
  {
    a :| Spaces(s, i, a) && ItemsStand(v, k, s, a, end);
  }

  lemma {:induction false} ItemPlaces(v: Json, k: nat, s: seq<byte>, i: nat, end: nat) returns (j: nat, b: nat)
    requires v.Arr? && k < |v.items| && ItemsStand(v, k, s, i, end)
    ensures Stands(v.items[k], s, i, j) && Begins(At(s, i)) && Spaces(s, j, b) && MoreItems(v, k, s, b, end)
  {
    j, b :| Stands(v.items[k], s, i, j) && Spaces(s, j, b) && MoreItems(v, k, s, b, end);
    StandsBegins(v.items[k], s, i, j);
  }

  lemma {:induction false} ItemsEnd(v: Json, k: nat, s: seq<byte>, i: nat, j: nat, b: nat, end: nat, n: nat,
                                    done: seq<Json>)
    requires v.Arr? && k + 1 == |v.items| && done == v.items[..k] && i <= |s| && Begins(At(s, i))
    requires Spaces(s, j, b) && MoreItems(v, k, s, b, end) && At(s, end) == CLOSE_ARRAY
    requires ParseValue(s, i, n) == Expected(v.items[k], j, n + Depth(v.items[k]))
    ensures ArrayReads(s, i, n, done, Expected(v, end + 1, n + ItemsDepth(v, k)))
  {
    assert ItemsDepth(v, k + 1) == 0;
    if n + Depth(v.items[k]) <= MAX_NESTING {
      assert done + [v.items[k]] == v.items;
      ArrayEnds(s, i, n, done, v.items[k], j, b, end);
    }
  }

  lemma {:induction false} ItemsGoOn(v: Json, k: nat, s: seq<byte>, i: nat, j: nat, b: nat, c: nat, end: nat, n: nat,
                                     done: seq<Json>)
    requires v.Arr? && k + 1 < |v.items| && i <= |s| && Begins(At(s, i)) && Spaces(s, j, b)
    requires At(s, b) == COMMA && Spaces(s, b + 1, c) && Begins(At(s, c))
    requires ParseValue(s, i, n) == Expected(v.items[k], j, n + Depth(v.items[k]))
    requires ArrayLoop(s, c, n, done + [v.items[k]]) == Expected(v, end, n + ItemsDepth(v, k + 1))
    ensures ArrayReads(s, i, n, done, Expected(v, end, n + ItemsDepth(v, k)))
  {
    if n + Depth(v.items[k]) <= MAX_NESTING {
      ArrayGoesOn(s, i, n, done, v.items[k], j, b, c);
    }
  }

  lemma {:induction false} ItemsRead(v: Json, k: nat, s: seq<byte>, i: nat, end: nat, n: nat, done: seq<Json>)
    requires v.Arr? && k < |v.items| && NamesDiffer(v) && done == v.items[..k]
    requires ItemsStand(v, k, s, i, end) && At(s, end) == CLOSE_ARRAY
    ensures i <= |s| && Begins(At(s, i)) && ArrayReads(s, i, n, done, Expected(v, end + 1, n + ItemsDepth(v, k)))
    decreases v, 0, |v.items| - k, 1
  {
    var j, b := ItemPlaces(v, k, s, i, end);
    ValueRead(v.items[k], s, i, i, j, n);
    if k + 1 == |v.items| {
      ItemsEnd(v, k, s, i, j, b, end, n, done);
    } else {
      var c := LaterItems(v, k, s, b, end, n, done);
      ItemsGoOn(v, k, s, i, j, b, c, end + 1, n, done);
    }
  }

  /** The items behind the comma at `b`. */
  lemma {:induction false} LaterItems(v: Json, k: nat, s: seq<byte>, b: nat, end: nat, n: nat, done: seq<Json>)
    returns (c: nat)
    requires v.Arr? && k + 1 < |v.items| && NamesDiffer(v) && done == v.items[..k]
    requires MoreItems(v, k, s, b, end) && At(s, end) == CLOSE_ARRAY
    ensures Spaces(s, b + 1, c) && Begins(At(s, c))
    ensures ArrayLoop(s, c, n, done + [v.items[k]]) == Expected(v, end + 1, n + ItemsDepth(v, k + 1))
    decreases v, 0, |v.items| - k, 0
  {
    c := FirstItem(v, k + 1, s, b + 1, end);
    assert done + [v.items[k]] == v.items[..k + 1];
    ItemsRead(v, k + 1, s, c, end, n, done + [v.items[k]]);
  }

  lemma {:induction false} ArrayRead(v: Json, s: seq<byte>, i: nat, end: nat, n: nat)
    requires v.Arr? && NamesDiffer(v) && Stands(v, s, i, end) && n <= MAX_NESTING
    ensures ParseAt(s, i, n) == Expected(v, end, n + Depth(v))
    decreases v, 0, |v.items| + 1
  {
    assert ArrayStands(v, s, i, end);
    if v.items == [] {
      OpensArray(s, i, end - 1, n);
    } else {
      FullArrayRead(v, s, i, end - 1, n);
    }
  }

  lemma {:induction false} FullArrayRead(v: Json, s: seq<byte>, i: nat, end: nat, n: nat)
    requires v.Arr? && v.items != [] && NamesDiffer(v) && ItemsFrom(v, 0, s, i + 1, end)
    requires At(s, i) == OPEN_ARRAY && At(s, end) == CLOSE_ARRAY
    ensures ParseAt(s, i, n) == Expected(v, end + 1, n + 1 + ItemsDepth(v, 0))
    decreases v, 0, |v.items| + 1, 0
  {
    var a := FirstItem(v, 0, s, i + 1, end);
    ItemsRead(v, 0, s, a, end, n + 1, []);
    OpensArray(s, i, a, n);
  }

  lemma {:induction false} OpensArray(s: seq<byte>, i: nat, a: nat, n: nat)
    requires At(s, i) == OPEN_ARRAY && Spaces(s, i + 1, a) && !White(At(s, a))
    ensures ParseAt(s, i, n) == if At(s, a) == CLOSE_ARRAY then Some((Arr([]), a + 1)) else ArrayLoop(s, a, n + 1, [])
  {
    SkipsTo(s, i + 1, a);
  }

  // objects

  ghost predicate ObjectReads(s: seq<byte>, i: nat, n: nat, done: seq<Member>, r: Parsed) {
    i <= |s| && ObjectLoop(s, i, n, done) == r
  }

  lemma {:induction false} HasKeyExact(members: seq<Member>, key: seq<byte>)
    ensures HasKey(members, key) <==> Uses(members, key, |members|)
  {
    if members != [] {
      HasKeyExact(members[..|members| - 1], key);
    }
  }

  lemma {:induction false} UsesPrefix(members: seq<Member>, key: seq<byte>, k: nat)
    requires k <= |members|
    ensures HasKey(members[..k], key) <==> Uses(members, key, k)
  {
    HasKeyExact(members[..k], key);
    assert forall i: nat :: i < k ==> members[..k][i] == members[i];
  }

  lemma {:induction false} NameRead(key: seq<byte>, s: seq<byte>, i: nat, at: nat)
    requires NameStands(key, s, i, at)
    ensures ParseKey(s, i) == Some((key, at)) && At(s, i) == QUOTE
  {
    var p: nat :| StringStands(key, s, i, p) && Spaces(s, p, at - 1);
    StringRead(key, s, i, p);
    SkipsTo(s, p, at - 1);
  }

  lemma {:induction false} ObjectEnds(s: seq<byte>, at: nat, n: nat, done: seq<Member>, key: seq<byte>, v: Json,
                                      j: nat, b: nat, c: nat)
    requires at <= |s| && ParseValue(s, at, n) == Some((v, j)) && !HasKey(done, key) && Spaces(s, j, b)
    requires At(s, c) == CLOSE_OBJECT && (c == b || (At(s, b) == COMMA && Spaces(s, b + 1, c)))
    ensures MemberAfterKey(s, at, n, done, key) == Some((Obj(done + [Member(key, v)]), c + 1))
  {
    SkipsTo(s, j, b);
    if c != b {
      SkipsTo(s, b + 1, c);
    }
  }

  lemma {:induction false} ObjectGoesOn(s: seq<byte>, at: nat, n: nat, done: seq<Member>, key: seq<byte>, v: Json,
                                        j: nat, b: nat, c: nat)
    requires at <= |s| && ParseValue(s, at, n) == Some((v, j)) && !HasKey(done, key) && Spaces(s, j, b)
    requires At(s, b) == COMMA && Spaces(s, b + 1, c) && Begins(At(s, c))
    ensures MemberAfterKey(s, at, n, done, key) == ObjectLoop(s, c, n, done + [Member(key, v)])
  {
    SkipsTo(s, j, b);
    SkipsTo(s, b + 1, c);
  }

  lemma {:induction false} NewName(v: Json, k: nat)
    requires v.Obj? && k < |v.members| && NamesDiffer(v)
    ensures !HasKey(v.members[..k], v.members[k].key)
  {
    UsesPrefix(v.members, v.members[k].key, k);
    NewNameAt(v.members, 0, k);
  }

  lemma {:induction false} NewNameAt(members: seq<Member>, from: nat, k: nat)
    requires NewNames(members, from) && from <= k < |members|
    ensures !Uses(members, members[k].key, k)
    decreases |members| - from
  {
    if from < k {
      NewNameAt(members, from + 1, k);
    }
  }

  lemma {:induction false} FirstMember(v: Json, k: nat, s: seq<byte>, i: nat, end: nat) returns (a: nat)
    requires v.Obj? && k < |v.members| && MembersFrom(v, k, s, i, end)
    ensures Spaces(s, i, a) && MembersStand(v, k, s, a, end)
  {
    a :| Spaces(s, i, a) && MembersStand(v, k, s, a, end);
  }

  /** A member with its places. */
  ghost predicate MemberStands(m: Member, s: seq<byte>, i: nat, at: nat, r: nat, j: nat, b: nat) {
    NameStands(m.key, s, i, at) && Spaces(s, at, r) && Stands(m.value, s, r, j) && Spaces(s, j, b)
  }

  lemma {:induction false} MemberFound(v: Json, k: nat, s: seq<byte>, i: nat, end: nat)
    returns (at: nat, r: nat, j: nat, b: nat)
    requires v.Obj? && k < |v.members| && MembersStand(v, k, s, i, end)
    ensures MemberStands(v.members[k], s, i, at, r, j, b) && MoreMembers(v, k, s, b, end)
  {
    at :| NameStands(v.members[k].key, s, i, at) && MemberFrom(v, k, s, at, end);
    r :| Spaces(s, at, r) && MemberValue(v, k, s, r, end);
    j, b :| Stands(v.members[k].value, s, r, j) && Spaces(s, j, b) && MoreMembers(v, k, s, b, end);
  }

  lemma {:induction false} MemberMade(v: Json, k: nat, s: seq<byte>, i: nat, at: nat, r: nat, j: nat, b: nat, end: nat)
    requires v.Obj? && k < |v.members| && MemberStands(v.members[k], s, i, at, r, j, b) && MoreMembers(v, k, s, b, end)
    ensures MembersStand(v, k, s, i, end)
  {
    assert MemberValue(v, k, s, r, end);
    assert MemberFrom(v, k, s, at, end);
  }

  lemma {:induction false} MemberPlaces(v: Json, k: nat, s: seq<byte>, i: nat, end: nat)
    returns (at: nat, r: nat, j: nat, b: nat)
    requires v.Obj? && k < |v.members| && MembersStand(v, k, s, i, end)
    ensures ParseKey(s, i) == Some((v.members[k].key, at)) && At(s, i) == QUOTE
    ensures Spaces(s, at, r) && Stands(v.members[k].value, s, r, j) && Spaces(s, j, b) && MoreMembers(v, k, s, b, end)
  {
    at, r, j, b := MemberFound(v, k, s, i, end);
    NameRead(v.members[k].key, s, i, at);
  }

  /** What follows the name at `at` is read with this result. */
  ghost predicate BehindReads(s: seq<byte>, at: nat, n: nat, done: seq<Member>, key: seq<byte>, r: Parsed) {
    at <= |s| && MemberAfterKey(s, at, n, done, key) == r
  }

  /** The loop reads a new name and goes on behind it. */
  ghost predicate LeadsTo(s: seq<byte>, i: nat, n: nat, done: seq<Member>, at: nat, key: seq<byte>) {
    i <= |s| && at <= |s| && ObjectLoop(s, i, n, done) == MemberAfterKey(s, at, n, done, key)
  }

  lemma {:induction false} NameThenRest(s: seq<byte>, i: nat, n: nat, done: seq<Member>, at: nat, key: seq<byte>,
                                        r: Parsed)
    requires LeadsTo(s, i, n, done, at, key) && BehindReads(s, at, n, done, key, r)
    ensures ObjectReads(s, i, n, done, r)
  {
  }

  lemma {:induction false} MembersEnd(v: Json, k: nat, s: seq<byte>, at: nat, j: nat, b: nat, end: nat, n: nat,
                                      done: seq<Member>)
    requires v.Obj? && k + 1 == |v.members| && done == v.members[..k] && at <= |s| && !HasKey(done, v.members[k].key)
    requires Spaces(s, j, b) && MoreMembers(v, k, s, b, end) && At(s, end) == CLOSE_OBJECT
    requires ParseValue(s, at, n) == Expected(v.members[k].value, j, n + Depth(v.members[k].value))
    ensures BehindReads(s, at, n, done, v.members[k].key, Expected(v, end + 1, n + MembersDepth(v, k)))
  {
    var m := v.members[k];
    assert MembersDepth(v, k + 1) == 0;
    if n + Depth(m.value) <= MAX_NESTING {
      assert done + [m] == v.members;
      ObjectEnds(s, at, n, done, m.key, m.value, j, b, end);
    }
  }

  lemma {:induction false} MembersGoOn(v: Json, k: nat, s: seq<byte>, at: nat, j: nat, b: nat, c: nat, end: nat, n: nat,
                                       done: seq<Member>)
    requires v.Obj? && k + 1 < |v.members| && at <= |s| && !HasKey(done, v.members[k].key) && Spaces(s, j, b)
    requires At(s, b) == COMMA && Spaces(s, b + 1, c) && Begins(At(s, c))
    requires ParseValue(s, at, n) == Expected(v.members[k].value, j, n + Depth(v.members[k].value))
    requires ObjectLoop(s, c, n, done + [v.members[k]]) == Expected(v, end, n + MembersDepth(v, k + 1))
    ensures BehindReads(s, at, n, done, v.members[k].key, Expected(v, end, n + MembersDepth(v, k)))
  {
    var m := v.members[k];
    DeepestMember(v, k);
    if n + Depth(m.value) <= MAX_NESTING {
      ObjectGoesOn(s, at, n, done, m.key, m.value, j, b, c);
    } else {
      TooDeep(s, at, n, done, m.key);
    }
  }

  lemma {:induction false} DeepestMember(v: Json, k: nat)
    requires v.Obj? && k < |v.members|
    ensures MembersDepth(v, k) == Max(Depth(v.members[k].value), MembersDepth(v, k + 1))
  {
  }

  lemma {:induction false} TooDeep(s: seq<byte>, at: nat, n: nat, done: seq<Member>, key: seq<byte>)
    requires at <= |s| && ParseValue(s, at, n) == None
    ensures MemberAfterKey(s, at, n, done, key) == None
  {
  }

  lemma {:induction false} MembersRead(v: Json, k: nat, s: seq<byte>, i: nat, end: nat, n: nat, done: seq<Member>)
    requires v.Obj? && k < |v.members| && NamesDiffer(v) && done == v.members[..k]
    requires MembersStand(v, k, s, i, end) && At(s, end) == CLOSE_OBJECT
    ensures At(s, i) == QUOTE && ObjectReads(s, i, n, done, Expected(v, end + 1, n + MembersDepth(v, k)))
    decreases v, 0, |v.members| - k, 1
  {
    var at, r, j, b := MemberNamed(v, k, s, i, end, n, done);
    MemberRead(v, k, s, at, r, j, b, end, n, done);
    NameThenRest(s, i, n, done, at, v.members[k].key, Expected(v, end + 1, n + MembersDepth(v, k)));
  }

  /** The value of member `k` and what comes behind it. */
  lemma {:induction false} MemberRead(v: Json, k: nat, s: seq<byte>, at: nat, r: nat, j: nat, b: nat, end: nat, n: nat,
                                      done: seq<Member>)
    requires v.Obj? && k < |v.members| && NamesDiffer(v) && done == v.members[..k] && at <= |s|
    requires !HasKey(done, v.members[k].key) && NamesDiffer(v.members[k].value) && At(s, end) == CLOSE_OBJECT
    requires Spaces(s, at, r) && Stands(v.members[k].value, s, r, j) && Spaces(s, j, b) && MoreMembers(v, k, s, b, end)
    ensures BehindReads(s, at, n, done, v.members[k].key, Expected(v, end + 1, n + MembersDepth(v, k)))
    decreases v, 0, |v.members| - k, 0, 2
  {
    ValueRead(v.members[k].value, s, at, r, j, n);
    if k + 1 == |v.members| {
      MembersEnd(v, k, s, at, j, b, end, n, done);
    } else {
      MembersFollow(v, k, s, at, j, b, end, n, done);
    }
  }

  lemma {:induction false} MembersFollow(v: Json, k: nat, s: seq<byte>, at: nat, j: nat, b: nat, end: nat, n: nat,
                                         done: seq<Member>)
    requires v.Obj? && k + 1 < |v.members| && NamesDiffer(v) && done == v.members[..k] && at <= |s|
    requires !HasKey(done, v.members[k].key)
    requires Spaces(s, j, b) && MoreMembers(v, k, s, b, end) && At(s, end) == CLOSE_OBJECT
    requires ParseValue(s, at, n) == Expected(v.members[k].value, j, n + Depth(v.members[k].value))
    ensures BehindReads(s, at, n, done, v.members[k].key, Expected(v, end + 1, n + MembersDepth(v, k)))
    decreases v, 0, |v.members| - k, 0, 1
  {
    var c := LaterMembers(v, k, s, b, end, n, done);
    MembersGoOn(v, k, s, at, j, b, c, end + 1, n, done);
  }

  /** The name of member `k` is read and new. */
  lemma {:induction false} MemberNamed(v: Json, k: nat, s: seq<byte>, i: nat, end: nat, n: nat, done: seq<Member>)
    returns (at: nat, r: nat, j: nat, b: nat)
    requires v.Obj? && k < |v.members| && NamesDiffer(v) && done == v.members[..k] && MembersStand(v, k, s, i, end)
    ensures At(s, i) == QUOTE && at <= |s| && !HasKey(done, v.members[k].key) && NamesDiffer(v.members[k].value)
    ensures LeadsTo(s, i, n, done, at, v.members[k].key)
    ensures Spaces(s, at, r) && Stands(v.members[k].value, s, r, j) && Spaces(s, j, b) && MoreMembers(v, k, s, b, end)
  {
    at, r, j, b := MemberPlaces(v, k, s, i, end);
    NewName(v, k);
    BehindName(s, i, n, done, v.members[k].key, at);
  }

  lemma {:induction false} BehindName(s: seq<byte>, i: nat, n: nat, done: seq<Member>, key: seq<byte>, at: nat)
    requires i <= |s| && At(s, i) == QUOTE && ParseKey(s, i) == Some((key, at))
    ensures ObjectLoop(s, i, n, done) == MemberAfterKey(s, at, n, done, key)
  {
  }

  /** The members behind the comma at `b`. */
  lemma {:induction false} LaterMembers(v: Json, k: nat, s: seq<byte>, b: nat, end: nat, n: nat, done: seq<Member>)
    returns (c: nat)
    requires v.Obj? && k + 1 < |v.members| && NamesDiffer(v) && done == v.members[..k]
    requires MembersFrom(v, k + 1, s, b + 1, end) && At(s, end) == CLOSE_OBJECT
    ensures Spaces(s, b + 1, c) && Begins(At(s, c))
    ensures ObjectLoop(s, c, n, done + [v.members[k]]) == Expected(v, end + 1, n + MembersDepth(v, k + 1))
    decreases v, 0, |v.members| - k, 0, 0
  {
    var more := done + [v.members[k]];
    assert more == v.members[..k + 1];
    c := FirstMember(v, k + 1, s, b + 1, end);
    MembersRead(v, k + 1, s, c, end, n, more);
  }

  lemma {:induction false} ObjectRead(v: Json, s: seq<byte>, i: nat, end: nat, n: nat)
    requires v.Obj? && NamesDiffer(v) && Stands(v, s, i, end) && n <= MAX_NESTING
    ensures ParseAt(s, i, n) == Expected(v, end, n + Depth(v))
    decreases v, 0, |v.members| + 1
  {
    assert ObjectStands(v, s, i, end);
    if v.members == [] {
      OpensObject(s, i, end - 1, n);
    } else {
      FullObjectRead(v, s, i, end - 1, n);
    }
  }

  lemma {:induction false} FullObjectRead(v: Json, s: seq<byte>, i: nat, end: nat, n: nat)
    requires v.Obj? && v.members != [] && NamesDiffer(v) && MembersFrom(v, 0, s, i + 1, end)
    requires At(s, i) == OPEN_OBJECT && At(s, end) == CLOSE_OBJECT
    ensures ParseAt(s, i, n) == Expected(v, end + 1, n + 1 + MembersDepth(v, 0))
    decreases v, 0, |v.members| + 1, 0
  {
    var a := FirstMember(v, 0, s, i + 1, end);
    MembersRead(v, 0, s, a, end, n + 1, []);
    OpensObject(s, i, a, n);
  }

  lemma {:induction false} OpensObject(s: seq<byte>, i: nat, a: nat, n: nat)
    requires At(s, i) == OPEN_OBJECT && Spaces(s, i + 1, a) && !White(At(s, a))
    ensures ParseAt(s, i, n) == if At(s, a) == CLOSE_OBJECT then Some((Obj([]), a + 1)) else ObjectLoop(s, a, n + 1, [])
  {
    SkipsTo(s, i + 1, a);
  }

  /** What stands in a text is read as its value, at any nesting that the limit admits. */
  lemma {:induction false} ValueRead(v: Json, s: seq<byte>, i: nat, a: nat, end: nat, n: nat)
    requires NamesDiffer(v) && Spaces(s, i, a) && Stands(v, s, a, end)
    ensures ParseValue(s, i, n) == Expected(v, end, n + Depth(v))
    decreases v, 1
  {
    StandsBegins(v, s, a, end);
    if n <= MAX_NESTING {
      ParsesAt(s, i, a, n);
      if v.Arr? {
        ArrayRead(v, s, a, end, n);
      } else if v.Obj? {
        ObjectRead(v, s, a, end, n);
      } else {
        ScalarExact(v, s, a, end);
      }
    }
  }

  // --------------------------------------------------------- what is read stands

  /** The values from `from` on nest no deeper than the limit admits, and their objects have names that differ. */
  ghost predicate ItemsFit(v: Json, from: nat, n: nat)
    requires v.Arr? && from <= |v.items|
  {
    n + ItemsDepth(v, from) <= MAX_NESTING && forall i :: from <= i < |v.items| ==> NamesDiffer(v.items[i])
  }

  lemma {:induction false} ItemFits(v: Json, k: nat, n: nat)
    requires v.Arr? && k < |v.items| && n + Depth(v.items[k]) <= MAX_NESTING && NamesDiffer(v.items[k])
    requires k + 1 < |v.items| ==> ItemsFit(v, k + 1, n)
    ensures ItemsFit(v, k, n)
  {
    if k + 1 == |v.items| {
      assert ItemsDepth(v, k + 1) == 0;
    }
  }

  /** One round of the loop over the items of an array: the value read, and whether it is the last. */
  lemma {:induction false} ArrayRound(s: seq<byte>, i: nat, n: nat, done: seq<Json>)
    returns (x: Json, j: nat, b: nat, c: nat, last: bool)
    requires i <= |s| && ArrayLoop(s, i, n, done).Some?
    ensures ParseValue(s, i, n) == Some((x, j)) && Spaces(s, j, b) && b < |s|
    ensures c == b || (s[b] == 44 && Spaces(s, b + 1, c))
    ensures c < |s| && !White(s[c])
    ensures if last then s[c] == 93 && ArrayLoop(s, i, n, done) == Some((Arr(done + [x]), c + 1))
            else b < c && ArrayLoop(s, i, n, done) == ArrayLoop(s, c, n, done + [x])
  {
    x, j := ParseValue(s, i, n).value.0, ParseValue(s, i, n).value.1;
    Skips(s, j);
    b := SkipSpace(s, j);
    c, last := b, true;
    if At(s, b) == COMMA {
      Skips(s, b + 1);
      c := SkipSpace(s, b + 1);
      last := At(s, c) == CLOSE_ARRAY;
    }
  }

  lemma {:induction false} LastItemStands(v: Json, k: nat, s: seq<byte>, i: nat, j: nat, b: nat, c: nat)
    requires v.Arr? && k + 1 == |v.items| && Stands(v.items[k], s, i, j) && Spaces(s, j, b)
    requires b <= c < |s| && (c == b || (s[b] == 44 && Spaces(s, b + 1, c)))
    ensures ItemsStand(v, k, s, i, c)
  {
    assert MoreItems(v, k, s, b, c);
  }

  lemma {:induction false} ItemAndMoreStand(v: Json, k: nat, s: seq<byte>, i: nat, j: nat, b: nat, c: nat, end: nat)
    requires v.Arr? && k + 1 < |v.items| && Stands(v.items[k], s, i, j) && Spaces(s, j, b)
    requires b < |s| && s[b] == 44 && Spaces(s, b + 1, c) && ItemsStand(v, k + 1, s, c, end) && b <= end < |s|
    ensures ItemsStand(v, k, s, i, end)
  {
    assert ItemsFrom(v, k + 1, s, b + 1, end);
    assert MoreItems(v, k, s, b, end);
  }

  /** The items from `k` on were found in the text. */
  ghost predicate ItemsFound(r: Parsed, done: seq<Json>, s: seq<byte>, i: nat, n: nat) {
    r.Some? &&
    (var (v, e) := r.value;
     && v.Arr? && |done| < |v.items| && v.items[..|done|] == done && i < e <= |s| && s[e - 1] == 93
     && ItemsStand(v, |done|, s, i, e - 1) && ItemsFit(v, |done|, n))
  }

  /** What the loop over the items of an array finds stands in the text. */
  lemma {:induction false} ItemsSound(s: seq<byte>, i: nat, n: nat, done: seq<Json>)
    requires i <= |s| && !White(At(s, i)) && ArrayLoop(s, i, n, done).Some?
    ensures ItemsFound(ArrayLoop(s, i, n, done), done, s, i, n)
    decreases |s| - i, 3
  {
    var x, j, b, c, last := ArrayRound(s, i, n, done);
    ValueSound(s, i, i, n);
    if last {
      LastFound(s, i, n, done, x, j, b, c);
    } else {
      ItemsSound(s, c, n, done + [x]);
      MoreFound(s, i, n, done, x, j, b, c, ArrayLoop(s, i, n, done));
    }
  }

  lemma {:induction false} LastFound(s: seq<byte>, i: nat, n: nat, done: seq<Json>, x: Json, j: nat, b: nat, c: nat)
    requires Stands(x, s, i, j) && Spaces(s, j, b) && n + Depth(x) <= MAX_NESTING && NamesDiffer(x)
    requires c < |s| && s[c] == 93 && b <= c && (c == b || (s[b] == 44 && Spaces(s, b + 1, c)))
    ensures ItemsFound(Some((Arr(done + [x]), c + 1)), done, s, i, n)
  {
    var v := Arr(done + [x]);
    LastItemStands(v, |done|, s, i, j, b, c);
    ItemFits(v, |done|, n);
  }

  lemma {:induction false} Within<T>(all: seq<T>, done: seq<T>, x: T)
    requires |done| < |all| && all[..|done| + 1] == done + [x]
    ensures all[|done|] == x && all[..|done|] == done
  {
    assert all[..|done| + 1][|done|] == x && all[..|done|] == all[..|done| + 1][..|done|];
  }

  lemma {:induction false} MoreFound(s: seq<byte>, i: nat, n: nat, done: seq<Json>, x: Json, j: nat, b: nat, c: nat,
                                     r: Parsed)
    requires Stands(x, s, i, j) && Spaces(s, j, b) && n + Depth(x) <= MAX_NESTING && NamesDiffer(x)
    requires b < c && b < |s| && s[b] == 44 && Spaces(s, b + 1, c) && ItemsFound(r, done + [x], s, c, n)
    ensures ItemsFound(r, done, s, i, n)
  {
    var (v, e) := r.value;
    Within(v.items, done, x);
    ItemAndMoreStand(v, |done|, s, i, j, b, c, e - 1);
    ItemFits(v, |done|, n);
  }

  /** Whatever is read as a value is one, behind white space, within the limit of nesting, and with names that
      differ. */
  lemma {:induction false} ValueSound(s: seq<byte>, i: nat, a: nat, n: nat)
    requires Spaces(s, i, a) && !White(At(s, a)) && ParseValue(s, i, n).Some?
    ensures var (v, end) := ParseValue(s, i, n).value;
            Stands(v, s, a, end) && n + Depth(v) <= MAX_NESTING && NamesDiffer(v)
    decreases |s| - i, 2
  {
    ParsesAt(s, i, a, n);
    if At(s, a) == OPEN_ARRAY {
      ArraySound(s, a, n);
    } else if At(s, a) == OPEN_OBJECT {
      ObjectSound(s, a, n);
    } else {
      var (v, end) := ParseValue(s, i, n).value;
      ScalarExact(v, s, a, end);
    }
  }

  lemma {:induction false} ArraySound(s: seq<byte>, i: nat, n: nat)
    requires At(s, i) == OPEN_ARRAY && n <= MAX_NESTING && ParseAt(s, i, n).Some?
    ensures var (v, end) := ParseAt(s, i, n).value;
            Stands(v, s, i, end) && n + Depth(v) <= MAX_NESTING && NamesDiffer(v)
    decreases |s| - i, 1
  {
    Skips(s, i + 1);
    var a := SkipSpace(s, i + 1);
    OpensArray(s, i, a, n);
    if At(s, a) == CLOSE_ARRAY {
      assert ArrayStands(Arr([]), s, i, a + 1);
    } else {
      ItemsSound(s, a, n + 1, []);
      ArrayFound(s, i, a, n, ParseAt(s, i, n));
    }
  }

  lemma {:induction false} ArrayFound(s: seq<byte>, i: nat, a: nat, n: nat, r: Parsed)
    requires At(s, i) == OPEN_ARRAY && Spaces(s, i + 1, a) && ItemsFound(r, [], s, a, n + 1)
    ensures var (v, end) := r.value; Stands(v, s, i, end) && n + Depth(v) <= MAX_NESTING && NamesDiffer(v)
  {
    var (v, end) := r.value;
    assert ItemsFrom(v, 0, s, i + 1, end - 1);
    assert ArrayStands(v, s, i, end);
  }

  lemma {:induction false} ObjectSound(s: seq<byte>, i: nat, n: nat)
    requires At(s, i) == OPEN_OBJECT && n <= MAX_NESTING && ParseAt(s, i, n).Some?
    ensures var (v, end) := ParseAt(s, i, n).value;
            Stands(v, s, i, end) && n + Depth(v) <= MAX_NESTING && NamesDiffer(v)
    decreases |s| - i, 1
  {
    Skips(s, i + 1);
    var a := SkipSpace(s, i + 1);
    OpensObject(s, i, a, n);
    if At(s, a) == CLOSE_OBJECT {
      assert ObjectStands(Obj([]), s, i, a + 1);
    } else {
      MembersSound(s, a, n + 1, []);
      ObjectFound(s, i, a, n, ParseAt(s, i, n));
    }
  }

  lemma {:induction false} ObjectFound(s: seq<byte>, i: nat, a: nat, n: nat, r: Parsed)
    requires At(s, i) == OPEN_OBJECT && Spaces(s, i + 1, a) && MembersFound(r, [], s, a, n + 1)
    ensures var (v, end) := r.value; Stands(v, s, i, end) && n + Depth(v) <= MAX_NESTING && NamesDiffer(v)
  {
    var (v, end) := r.value;
    assert MembersFrom(v, 0, s, i + 1, end - 1);
    assert ObjectStands(v, s, i, end);
  }

  // objects

  /** The members from `from` on fit the limit of nesting, and all names differ, given those before do. */
  ghost predicate MembersFit(v: Json, from: nat, n: nat)
    requires v.Obj? && from <= |v.members|
  {
    && n + MembersDepth(v, from) <= MAX_NESTING
    && (forall i :: from <= i < |v.members| ==> NamesDiffer(v.members[i].value))
    && NewNames(v.members, from)
  }

  lemma {:induction false} MemberFits(v: Json, k: nat, n: nat)
    requires v.Obj? && k < |v.members| && n + Depth(v.members[k].value) <= MAX_NESTING
    requires NamesDiffer(v.members[k].value) && !HasKey(v.members[..k], v.members[k].key)
    requires k + 1 < |v.members| ==> MembersFit(v, k + 1, n)
    ensures MembersFit(v, k, n)
  {
    UsesPrefix(v.members, v.members[k].key, k);
    if k + 1 == |v.members| {
      assert MembersDepth(v, k + 1) == 0;
    }
  }

  lemma {:induction false} NameSound(s: seq<byte>, i: nat)
    requires ParseKey(s, i).Some?
    ensures var (key, at) := ParseKey(s, i).value; NameStands(key, s, i, at)
  {
    StringSound(s, i);
    var p := ParseQuoted(s, i).value.1;
    Skips(s, p);
  }

  /** What follows a name: the value read, and whether the member is the last. */
  lemma {:induction false} MemberRound(s: seq<byte>, at: nat, n: nat, done: seq<Member>, key: seq<byte>)
    returns (x: Json, j: nat, b: nat, c: nat, last: bool)
    requires at <= |s| && MemberAfterKey(s, at, n, done, key).Some?
    ensures !HasKey(done, key) && ParseValue(s, at, n) == Some((x, j)) && Spaces(s, j, b) && b < |s|
    ensures c == b || (s[b] == 44 && Spaces(s, b + 1, c))
    ensures c < |s| && !White(s[c])
    ensures var all := done + [Member(key, x)];
            if last then s[c] == 125 && MemberAfterKey(s, at, n, done, key) == Some((Obj(all), c + 1))
            else b < c && MemberAfterKey(s, at, n, done, key) == ObjectLoop(s, c, n, all)
  {
    x, j := ParseValue(s, at, n).value.0, ParseValue(s, at, n).value.1;
    Skips(s, j);
    b := SkipSpace(s, j);
    c, last := b, true;
    if At(s, b) == COMMA {
      Skips(s, b + 1);
      c := SkipSpace(s, b + 1);
      last := At(s, c) == CLOSE_OBJECT;
    }
  }

  lemma {:induction false} NameFound(s: seq<byte>, i: nat, n: nat, done: seq<Member>) returns (key: seq<byte>, at: nat)
    requires i <= |s| && ObjectLoop(s, i, n, done).Some?
    ensures ParseKey(s, i) == Some((key, at)) && i < at <= |s|
    ensures ObjectLoop(s, i, n, done) == MemberAfterKey(s, at, n, done, key)
  {
    key, at := ParseKey(s, i).value.0, ParseKey(s, i).value.1;
  }

  ghost predicate MembersFound(r: Parsed, done: seq<Member>, s: seq<byte>, i: nat, n: nat) {
    r.Some? &&
    (var (v, e) := r.value;
     && v.Obj? && |done| < |v.members| && v.members[..|done|] == done && i < e <= |s| && s[e - 1] == 125
     && MembersStand(v, |done|, s, i, e - 1) && MembersFit(v, |done|, n))
  }

  lemma {:induction false} LastMemberFound(s: seq<byte>, i: nat, n: nat, done: seq<Member>, m: Member, at: nat, r: nat,
                                           j: nat, b: nat,
                        c: nat)
    requires MemberStands(m, s, i, at, r, j, b) && n + Depth(m.value) <= MAX_NESTING && NamesDiffer(m.value)
    requires !HasKey(done, m.key) && i <= b
    requires c < |s| && s[c] == 125 && b <= c && (c == b || (s[b] == 44 && Spaces(s, b + 1, c)))
    ensures MembersFound(Some((Obj(done + [m]), c + 1)), done, s, i, n)
  {
    var v := Obj(done + [m]);
    assert v.members[..|done|] == done;
    assert MoreMembers(v, |done|, s, b, c);
    MemberMade(v, |done|, s, i, at, r, j, b, c);
    MemberFits(v, |done|, n);
  }

  lemma {:induction false} MemberAndMoreStand(v: Json, k: nat, s: seq<byte>, i: nat, at: nat, r: nat, j: nat, b: nat,
                                              c: nat, end: nat)
    requires v.Obj? && k + 1 < |v.members| && MemberStands(v.members[k], s, i, at, r, j, b)
    requires b < |s| && s[b] == 44 && Spaces(s, b + 1, c) && MembersStand(v, k + 1, s, c, end) && b <= end < |s|
    ensures MembersStand(v, k, s, i, end)
  {
    assert MembersFrom(v, k + 1, s, b + 1, end);
    assert MoreMembers(v, k, s, b, end);
    MemberMade(v, k, s, i, at, r, j, b, end);
  }

  lemma {:induction false} MoreMembersFound(s: seq<byte>, i: nat, n: nat, done: seq<Member>, m: Member, at: nat,
                                            r: nat, j: nat, b: nat,
                         c: nat, p: Parsed)
    requires MemberStands(m, s, i, at, r, j, b) && n + Depth(m.value) <= MAX_NESTING && NamesDiffer(m.value)
    requires !HasKey(done, m.key) && i <= b
    requires b < c && b < |s| && s[b] == 44 && Spaces(s, b + 1, c) && MembersFound(p, done + [m], s, c, n)
    ensures MembersFound(p, done, s, i, n)
  {
    var (v, e) := p.value;
    Within(v.members, done, m);
    MemberAndMoreStand(v, |done|, s, i, at, r, j, b, c, e - 1);
    MemberFits(v, |done|, n);
  }

  /** What the loop over the members of an object finds stands in the text. */
  lemma {:induction false} MembersSound(s: seq<byte>, i: nat, n: nat, done: seq<Member>)
    requires i <= |s| && !White(At(s, i)) && ObjectLoop(s, i, n, done).Some?
    ensures MembersFound(ObjectLoop(s, i, n, done), done, s, i, n)
    decreases |s| - i, 3
  {
    var key, at := NameFound(s, i, n, done);
    NameSound(s, i);
    var x, j, b, c, last := MemberRound(s, at, n, done, key);
    Skips(s, at);
    var r := SkipSpace(s, at);
    ValueSound(s, at, r, n);
    var m := Member(key, x);
    assert MemberStands(m, s, i, at, r, j, b);
    if last {
      LastMemberFound(s, i, n, done, m, at, r, j, b, c);
    } else {
      MembersSound(s, c, n, done + [m]);
      MoreMembersFound(s, i, n, done, m, at, r, j, b, c, ObjectLoop(s, i, n, done));
    }
  }

  // ------------------------------------------------------------------- theorems

  /** The parser reads a value exactly when it stands in the text behind white space, is not nested too deeply, and has
      no object with two members of one name. */
  lemma {:induction false} ValueExact(v: Json, s: seq<byte>, i: nat, end: nat, n: nat)
    requires i <= |s|
    ensures ParseValue(s, i, n) == Some((v, end))
       <==> ValueStands(v, s, i, end) && n + Depth(v) <= MAX_NESTING && NamesDiffer(v)
  {
    if ParseValue(s, i, n) == Some((v, end)) {
      Skips(s, i);
      ValueSound(s, i, SkipSpace(s, i), n);
    }
    if ValueStands(v, s, i, end) && n + Depth(v) <= MAX_NESTING && NamesDiffer(v) {
      var a: nat :| Spaces(s, i, a) && Stands(v, s, a, end);
      ValueRead(v, s, i, a, end, n);
    }
  }

  /** The text begins with the value, behind an optional byte order mark. */
  ghost predicate TextOf(s: seq<byte>, v: Json) {
    TextFrom(s, if [0xEF, 0xBB, 0xBF] <= s then 3 else 0, v)
  }

  ghost predicate TextFrom(s: seq<byte>, i: nat, v: Json) {
    exists end: nat :: ValueStands(v, s, i, end)
  }

  /** A text is accepted, and read as `v`, exactly when it begins with a text of `v` whose nesting is within the limit
      and whose names differ. */
  lemma {:induction false} ParsesExactly(s: seq<byte>, v: Json)
    ensures Parse(s) == Some(v) <==> TextOf(s, v) && Depth(v) <= MAX_NESTING && NamesDiffer(v)
  {
    TokenExact(s, 0, BOM);
    var i := if [0xEF, 0xBB, 0xBF] <= s then 3 else 0;
    assert Start(s) == i;
    if Parse(s) == Some(v) {
      ValueExact(v, s, i, ParseValue(s, i, 0).value.1, 0);
    }
    if TextOf(s, v) {
      var end: nat :| ValueStands(v, s, i, end);
      ValueExact(v, s, i, end, 0);
    }
  }
}
