/** JSON values, the text the serializer writes for them, and what the parser reads. */
module Json {
  import opened Common
  import opened Bytes

  datatype Json =
    | Null
    | Bool(b: bool)
    | Number(n: int)
    | Str(s: seq<byte>)
    | Arr(items: seq<Json>)
    | Obj(members: seq<Member>)

  datatype Member = Member(key: seq<byte>, value: Json)

  const MAX_NESTING: nat := 2048

  const QUOTE: byte := 34
  const COMMA: byte := 44
  const MINUS: byte := 45
  const COLON: byte := 58
  const OPEN_ARRAY: byte := 91
  const BACKSLASH: byte := 92
  const CLOSE_ARRAY: byte := 93
  const OPEN_OBJECT: byte := 123
  const CLOSE_OBJECT: byte := 125

  const TRUE_TEXT: seq<byte> := [116, 114, 117, 101]
  const FALSE_TEXT: seq<byte> := [102, 97, 108, 115, 101]
  const NULL_TEXT: seq<byte> := [110, 117, 108, 108]

  // --------------------------------------------------------------- serializer

  /** A hexadecimal digit, lower case. */
  function HexDigit(d: nat): byte
    requires d < 16
  {
    if d < 10 then 48 + d else 87 + d
  }

  /** One byte of a string; `slashes` is the setting that escapes '/'. */
  function Escape(b: byte, slashes: bool): (r: seq<byte>)
    ensures 1 <= |r| <= 6
  {
    if b == QUOTE then [BACKSLASH, QUOTE]
    else if b == BACKSLASH then [BACKSLASH, BACKSLASH]
    else if b == 8 then [BACKSLASH, 98]
    else if b == 12 then [BACKSLASH, 102]
    else if b == 10 then [BACKSLASH, 110]
    else if b == 13 then [BACKSLASH, 114]
    else if b == 9 then [BACKSLASH, 116]
    else if b < 32 then [BACKSLASH, 117, 48, 48, HexDigit(b / 16), HexDigit(b % 16)]
    else if b == 47 && slashes then [BACKSLASH, 47]
    else [b]
  }

  function EscapeAll(s: seq<byte>, slashes: bool): seq<byte>
    decreases |s|, 1
  {
    if s == [] then [] else EscapeFirst(s, slashes)
  }

  function EscapeFirst(s: seq<byte>, slashes: bool): seq<byte>
    requires s != []
    decreases |s|, 0
  {
    Escape(s[0], slashes) + EscapeAll(s[1..], slashes)
  }

  function Quoted(s: seq<byte>, slashes: bool): seq<byte> {
    [QUOTE] + EscapeAll(s, slashes) + [QUOTE]
  }

  function Digits(n: nat): (r: seq<byte>)
    ensures r != []
    decreases n, 1
  {
    if n < 10 then [48 + n] else DigitsAndLast(n)
  }

  function DigitsAndLast(n: nat): (r: seq<byte>)
    requires n >= 10
    ensures r != []
    decreases n, 0
  {
    Digits(n / 10) + [48 + n % 10]
  }

  function NumberText(n: int): seq<byte> {
    if n < 0 then [MINUS] + Digits(-n) else Digits(n)
  }

  function Separator(i: nat, count: nat): seq<byte> {
    if i + 1 < count then [COMMA] else []
  }

  function Text(v: Json, slashes: bool): seq<byte>
    decreases v, 1, 0
  {
    match v
    case Null => NULL_TEXT
    case Bool(b) => if b then TRUE_TEXT else FALSE_TEXT
    case Number(n) => NumberText(n)
    case Str(s) => Quoted(s, slashes)
    case Arr(_) => [OPEN_ARRAY] + ItemsText(v, 0, slashes) + [CLOSE_ARRAY]
    case Obj(_) => [OPEN_OBJECT] + MembersText(v, 0, slashes) + [CLOSE_OBJECT]
  }

  /** The items from index `i` on. */
  function ItemsText(v: Json, i: nat, slashes: bool): seq<byte>
    requires v.Arr? && i <= |v.items|
    decreases v, 0, |v.items| - i
  {
    if i == |v.items| then []
    else Text(v.items[i], slashes) + Separator(i, |v.items|) + ItemsText(v, i + 1, slashes)
  }

  function MembersText(v: Json, i: nat, slashes: bool): seq<byte>
    requires v.Obj? && i <= |v.members|
    decreases v, 0, |v.members| - i
  {
    if i == |v.members| then []
    else
      var m := v.members[i];
      Quoted(m.key, slashes) + [COLON] + Text(m.value, slashes) + Separator(i, |v.members|)
        + MembersText(v, i + 1, slashes)
  }

  // ------------------------------------------------------------------- strings

  /** The byte at the cursor; a C string ends with 0. */
  function At(s: seq<byte>, i: nat): byte {
    if i < |s| then s[i] else 0
  }

  predicate IsSpace(b: byte) {
    b == 32 || 9 <= b <= 13
  }

  function SkipSpace(s: seq<byte>, i: nat): (r: nat)
    requires i <= |s|
    ensures i <= r <= |s|
    decreases |s| - i
  {
    if IsSpace(At(s, i)) then SkipSpace(s, i + 1) else i
  }

  /** `skip_quotes` behind the opening quote: the position behind the closing one. */
  function Scan(s: seq<byte>, i: nat): (r: Option<nat>)
    requires i <= |s|
    ensures r.Some? ==> i < r.value <= |s|
    decreases |s| - i
  {
    if At(s, i) == 0 then None
    else if At(s, i) == QUOTE then Some(i + 1)
    else if At(s, i) == BACKSLASH then if At(s, i + 1) == 0 then None else Scan(s, i + 2)
    else Scan(s, i + 1)
  }

  function HexValue(b: byte): int {
    if 48 <= b <= 57 then b - 48
    else if 97 <= b <= 102 then b - 87
    else if 65 <= b <= 70 then b - 55
    else -1
  }

  /** `parse_utf16_hex`. */
  function Hex4(s: seq<byte>, i: nat): (r: Option<nat>)
    ensures r.Some? ==> r.value < 0x1_0000 && i + 4 <= |s|
  {
    var x1, x2, x3, x4 := HexValue(At(s, i)), HexValue(At(s, i + 1)), HexValue(At(s, i + 2)), HexValue(At(s, i + 3));
    if x1 < 0 || x2 < 0 || x3 < 0 || x4 < 0 then None else Some(0x1000 * x1 + 0x100 * x2 + 0x10 * x3 + x4)
  }

  /** The UTF-8 bytes of a code point. */
  function Utf8(cp: nat): (r: seq<byte>)
    requires cp < 0x11_0000
    ensures 1 <= |r| <= 4
  {
    if cp < 0x80 then [cp]
    else if cp < 0x800 then [0xC0 + cp / 0x40, 0x80 + cp % 0x40]
    else if cp < 0x1_0000 then [0xE0 + cp / 0x1000, 0x80 + cp / 0x40 % 0x40, 0x80 + cp % 0x40]
    else [0xF0 + cp / 0x4_0000, 0x80 + cp / 0x1000 % 0x40, 0x80 + cp / 0x40 % 0x40, 0x80 + cp % 0x40]
  }

  /** What the byte behind a backslash stands for. */
  function Unescape(b: byte): Option<byte> {
    if b == QUOTE || b == BACKSLASH || b == 47 then Some(b)
    else if b == 98 then Some(8)
    else if b == 102 then Some(12)
    else if b == 110 then Some(10)
    else if b == 114 then Some(13)
    else if b == 116 then Some(9)
    else None
  }

  function Prepend(c: seq<byte>, rest: Option<seq<byte>>): Option<seq<byte>> {
    if rest.None? then None else Some(c + rest.value)
  }

  /** `process_string` on the bytes from `i` to `end`. */
  function Process(s: seq<byte>, i: nat, end: nat): Option<seq<byte>>
    decreases |s| - i, 2
  {
    if At(s, i) == 0 || i >= end then Some([])
    else if s[i] == BACKSLASH then ProcessEscape(s, i + 1, end)
    else if s[i] < 32 then None
    else Prepend([s[i]], Process(s, i + 1, end))
  }

  /** Behind a backslash. */
  function ProcessEscape(s: seq<byte>, i: nat, end: nat): Option<seq<byte>>
    requires i <= |s|
    decreases |s| - i, 1
  {
    if At(s, i) == 117 then ProcessUtf16(s, i + 1, end)
    else
      var e := Unescape(At(s, i));
      if e.None? then None else Prepend([e.value], Process(s, i + 1, end))
  }

  /** `parse_utf16`, behind the `u`. */
  function ProcessUtf16(s: seq<byte>, i: nat, end: nat): Option<seq<byte>>
    requires i <= |s|
    decreases |s| - i, 0
  {
    var lead := Hex4(s, i);
    if lead.None? then None
    else if lead.value < 0xD800 || lead.value > 0xDFFF then Prepend(Utf8(lead.value), Process(s, i + 4, end))
    else if lead.value > 0xDBFF || At(s, i + 4) != BACKSLASH || At(s, i + 5) != 117 then None
    else
      var trail := Hex4(s, i + 6);
      if trail.None? || trail.value < 0xDC00 || trail.value > 0xDFFF then None
      else Prepend(Utf8(0x1_0000 + 0x400 * (lead.value - 0xD800) + (trail.value - 0xDC00)), Process(s, i + 10, end))
  }

  type Decoded = Option<(seq<byte>, nat)>

  /** `get_quoted_string`: the contents and the position behind the closing quote. */
  function ParseQuoted(s: seq<byte>, i: nat): (r: Decoded)
    ensures r.Some? ==> i < r.value.1 <= |s|
  {
    if At(s, i) != QUOTE then None
    else
      var end := Scan(s, i + 1);
      if end.None? then None
      else
        var contents := Process(s, i + 1, end.value - 1);
        if contents.None? then None else Some((contents.value, end.value))
  }

  // -------------------------------------------------------------------- values

  predicate IsDigit(b: byte) {
    48 <= b <= 57
  }

  /** The position behind a run of digits. */
  function Run(s: seq<byte>, i: nat): (r: nat)
    requires i <= |s|
    ensures i <= r <= |s|
    decreases |s| - i
  {
    if IsDigit(At(s, i)) then Run(s, i + 1) else i
  }

  function DigitsValue(s: seq<byte>, i: nat, end: nat): int
    requires i <= end <= |s|
  {
    if i == end then 0 else 10 * DigitsValue(s, i, end - 1) + (s[end - 1] as int - 48)
  }

  type Parsed = Option<(Json, nat)>

  const POINT: byte := 46

  predicate IsHexDigit(b: byte) {
    IsDigit(b) || 65 <= b <= 70 || 97 <= b <= 102
  }

  /** The letter `lower`, in lower or upper case. */
  predicate IsLetter(b: byte, lower: byte) {
    b == lower || b + 32 == lower
  }

  /** "inf" or "nan", in upper or lower case. */
  predicate IsNonFinite(s: seq<byte>, j: nat) {
    || (IsLetter(At(s, j), 105) && IsLetter(At(s, j + 1), 110) && IsLetter(At(s, j + 2), 102))
    || (IsLetter(At(s, j), 110) && IsLetter(At(s, j + 1), 97) && IsLetter(At(s, j + 2), 110))
  }

  /** `strtod` finds something to convert at `j`, behind the sign: digits, a fraction, or a non-finite number. */
  predicate Converts(s: seq<byte>, j: nat) {
    IsDigit(At(s, j)) || (At(s, j) == POINT && IsDigit(At(s, j + 1))) || IsNonFinite(s, j)
  }

  /** Behind the digits from `start` to `end`, `strtod` reads on: a point, an exponent, or hexadecimal digits. */
  predicate ReadsOn(s: seq<byte>, start: nat, end: nat)
    requires start < end <= |s|
  {
    var c, d := At(s, end), At(s, end + 1);
    || c == POINT
    || (IsLetter(c, 101) && (IsDigit(d) || ((d == 43 || d == MINUS) && IsDigit(At(s, end + 2)))))
    || (end == start + 1 && s[start] == 48 && IsLetter(c, 120)
        && (IsHexDigit(d) || (d == POINT && IsHexDigit(At(s, end + 2)))))
  }

  /** `parse_number_value`.  If nothing is converted, the value is 0 and the cursor stays.  Numbers that are not
      finite, hexadecimal, or written with superfluous zeros are refused; so are those with a fraction or an
      exponent, which the code accepts: the model has only integers. */
  function ParseNumber(s: seq<byte>, i: nat): (r: Parsed)
    requires i < |s|
    ensures r.Some? ==> i <= r.value.1 <= |s|
  {
    var start := if s[i] == MINUS then i + 1 else i;
    var end := Run(s, start);
    if !Converts(s, start) then Some((Number(0), i))
    else if end == start || ReadsOn(s, start, end) then None
    else if end > start + 1 && s[start] == 48 then None
    else
      var v := DigitsValue(s, start, end);
      Some((Number(if s[i] == MINUS then -v else v), end))
  }

  /** `strncmp`: the token from its byte `k` on stands at position `i`. */
  predicate Matches(s: seq<byte>, i: nat, token: seq<byte>, k: nat)
    requires k <= |token|
    ensures 0 !in token && i <= |s| && Matches(s, i, token, k) ==> i + |token| - k <= |s|
    decreases |token| - k
  {
    k == |token| || (At(s, i) == token[k] && Matches(s, i + 1, token, k + 1))
  }

  function ParseToken(s: seq<byte>, i: nat, token: seq<byte>, v: Json): (r: Parsed)
    requires 0 !in token && i <= |s|
    ensures r.Some? ==> i <= r.value.1 <= |s|
  {
    if Matches(s, i, token, 0) then Some((v, i + |token|)) else None
  }

  function ParseBoolean(s: seq<byte>, i: nat): (r: Parsed)
    requires i <= |s|
    ensures r.Some? ==> i <= r.value.1 <= |s|
  {
    var r := ParseToken(s, i, TRUE_TEXT, Bool(true));
    if r.Some? then r else ParseToken(s, i, FALSE_TEXT, Bool(false))
  }

  function ParseString(s: seq<byte>, i: nat): (r: Parsed)
    ensures r.Some? ==> i <= r.value.1 <= |s|
  {
    var q := ParseQuoted(s, i);
    if q.None? then None else Some((Str(q.value.0), q.value.1))
  }

  /** `parse_value`. */
  function ParseValue(s: seq<byte>, i: nat, nesting: nat): (r: Parsed)
    requires i <= |s|
    ensures r.Some? ==> i <= r.value.1 <= |s|
    decreases |s| - i, 2
  {
    if nesting > MAX_NESTING then None else ParseAt(s, SkipSpace(s, i), nesting)
  }

  /** The value whose first byte is at `i`. */
  function ParseAt(s: seq<byte>, i: nat, nesting: nat): (r: Parsed)
    requires i <= |s|
    ensures r.Some? ==> i <= r.value.1 <= |s|
    decreases |s| - i, 1
  {
    var c := At(s, i);
    if c == OPEN_OBJECT then ParseObject(s, i + 1, nesting + 1)
    else if c == OPEN_ARRAY then ParseArray(s, i + 1, nesting + 1)
    else ParseScalar(s, i)
  }

  function ParseScalar(s: seq<byte>, i: nat): (r: Parsed)
    requires i <= |s|
    ensures r.Some? ==> i <= r.value.1 <= |s|
  {
    var c := At(s, i);
    if c == QUOTE then ParseString(s, i)
    else if c == 102 || c == 116 then ParseBoolean(s, i)
    else if c == MINUS || IsDigit(c) then ParseNumber(s, i)
    else if c == 110 then ParseToken(s, i, NULL_TEXT, Null)
    else None
  }

  /** `parse_array_value`, behind the bracket. */
  function ParseArray(s: seq<byte>, i: nat, nesting: nat): (r: Parsed)
    requires i <= |s|
    ensures r.Some? ==> i <= r.value.1 <= |s|
    decreases |s| - i, 4
  {
    var j := SkipSpace(s, i);
    if At(s, j) == CLOSE_ARRAY then ArrayEnd(s, j, []) else ArrayLoop(s, j, nesting, [])
  }

  function ArrayLoop(s: seq<byte>, i: nat, nesting: nat, items: seq<Json>): (r: Parsed)
    requires i <= |s|
    ensures r.Some? ==> i <= r.value.1 <= |s|
    decreases |s| - i, 3
  {
    if At(s, i) == 0 then None
    else
      var v := ParseValue(s, i, nesting);
      if v.None? then None
      else
        var j := SkipSpace(s, v.value.1);
        if At(s, j) != COMMA then ArrayEnd(s, j, items + [v.value.0])
        else
          var k := SkipSpace(s, j + 1);
          if At(s, k) == CLOSE_ARRAY then ArrayEnd(s, k, items + [v.value.0])
          else ArrayLoop(s, k, nesting, items + [v.value.0])
  }

  function ArrayEnd(s: seq<byte>, i: nat, items: seq<Json>): (r: Parsed)
    ensures r.Some? ==> i <= r.value.1 <= |s|
  {
    if At(s, i) == CLOSE_ARRAY then Some((Arr(items), i + 1)) else None
  }

  predicate HasKey(members: seq<Member>, key: seq<byte>) {
    members != [] && (members[|members| - 1].key == key || HasKey(members[..|members| - 1], key))
  }

  /** `parse_object_value`, behind the brace. */
  function ParseObject(s: seq<byte>, i: nat, nesting: nat): (r: Parsed)
    requires i <= |s|
    ensures r.Some? ==> i <= r.value.1 <= |s|
    decreases |s| - i, 4
  {
    var j := SkipSpace(s, i);
    if At(s, j) == CLOSE_OBJECT then ObjectEnd(s, j, []) else ObjectLoop(s, j, nesting, [])
  }

  /** The key and the position behind the colon.  A key with an embedded 0 is refused. */
  function ParseKey(s: seq<byte>, i: nat): (r: Decoded)
    ensures r.Some? ==> i < r.value.1 <= |s|
  {
    var q := ParseQuoted(s, i);
    if q.None? || 0 in q.value.0 then None
    else
      var j := SkipSpace(s, q.value.1);
      if At(s, j) != COLON then None else Some((q.value.0, j + 1))
  }

  function ObjectLoop(s: seq<byte>, i: nat, nesting: nat, members: seq<Member>): (r: Parsed)
    requires i <= |s|
    ensures r.Some? ==> i <= r.value.1 <= |s|
    decreases |s| - i, 3
  {
    if At(s, i) == 0 then None
    else
      var k := ParseKey(s, i);
      if k.None? then None else MemberAfterKey(s, k.value.1, nesting, members, k.value.0)
  }

  /** The loop body behind the colon. */
  function MemberAfterKey(s: seq<byte>, i: nat, nesting: nat, members: seq<Member>, key: seq<byte>): (r: Parsed)
    requires i <= |s|
    ensures r.Some? ==> i <= r.value.1 <= |s|
    decreases |s| - i, 5
  {
    var v := ParseValue(s, i, nesting);
    if v.None? || HasKey(members, key) then None
    else
      var all := members + [Member(key, v.value.0)];
      var j := SkipSpace(s, v.value.1);
      if At(s, j) != COMMA then ObjectEnd(s, j, all)
      else
        var k := SkipSpace(s, j + 1);
        if At(s, k) == CLOSE_OBJECT then ObjectEnd(s, k, all) else ObjectLoop(s, k, nesting, all)
  }

  function ObjectEnd(s: seq<byte>, i: nat, members: seq<Member>): (r: Parsed)
    ensures r.Some? ==> i <= r.value.1 <= |s|
  {
    if At(s, i) == CLOSE_OBJECT then Some((Obj(members), i + 1)) else None
  }

  const BOM: seq<byte> := [0xEF, 0xBB, 0xBF]

  /** A byte order mark is skipped. */
  function Start(s: seq<byte>): (r: nat)
    ensures r <= |s|
  {
    if |s| >= 3 && Matches(s, 0, BOM, 0) then 3 else 0
  }

  function ValueOf(r: Parsed): Option<Json> {
    if r.None? then None else Some(r.value.0)
  }

  /** `json_parse_string`: what follows the value is not looked at. */
  function Parse(s: seq<byte>): Option<Json> {
    ValueOf(ParseValue(s, Start(s), 0))
  }

  // --------------------------------------------------------------- well-formed

  /** How many containers enclose the innermost value. */
  function Depth(v: Json): nat
    decreases v, 1, 0
  {
    match v
    case Arr(items) => if items == [] then 0 else 1 + ItemsDepth(v, 0)
    case Obj(members) => if members == [] then 0 else 1 + MembersDepth(v, 0)
    case _ => 0
  }

  function ItemsDepth(v: Json, i: nat): nat
    requires v.Arr? && i <= |v.items|
    decreases v, 0, |v.items| - i
  {
    if i == |v.items| then 0 else Max(Depth(v.items[i]), ItemsDepth(v, i + 1))
  }

  function MembersDepth(v: Json, i: nat): nat
    requires v.Obj? && i <= |v.members|
    decreases v, 0, |v.members| - i
  {
    if i == |v.members| then 0 else Max(Depth(v.members[i].value), MembersDepth(v, i + 1))
  }

  function Max(a: nat, b: nat): nat {
    if a >= b then a else b
  }

  /** Distinct names that are C strings: `json_object_add` admits nothing else. */
  ghost predicate NamesOk(members: seq<Member>) {
    members == [] ||
    (var front, last := members[..|members| - 1], members[|members| - 1];
     NamesOk(front) && !HasKey(front, last.key) && 0 !in last.key)
  }

  /** The integers that a double holds exactly, which the default format prints in full: up to 2^53. */
  predicate Exact(n: int) {
    -0x20_0000_0000_0000 <= n <= 0x20_0000_0000_0000
  }

  /** Every object in the value has such names, and every number is such an integer. */
  ghost predicate Proper(v: Json)
    decreases v
  {
    match v
    case Number(n) => Exact(n)
    case Arr(items) => forall i :: 0 <= i < |items| ==> Proper(items[i])
    case Obj(members) => NamesOk(members) && forall i :: 0 <= i < |members| ==> Proper(members[i].value)
    case _ => true
  }
}
