/** Parsing undoes serializing. */
module JsonProofs {
  import opened Common
  import opened Bytes
  import opened Json
  import opened JsonGrammar

  /** The text `t` stands at position `i`. */
  predicate Here(s: seq<byte>, i: nat, t: seq<byte>) {
    i + |t| <= |s| && Matches(s, i, t, 0)
  }

  lemma {:induction false} MatchesAt(s: seq<byte>, i: nat, t: seq<byte>, k: nat, m: nat)
    requires k <= m < |t| && Matches(s, i, t, k)
    ensures At(s, i + m - k) == t[m]
    decreases m - k
  {
    if k < m {
      MatchesAt(s, i + 1, t, k + 1, m);
    }
  }

  lemma HereAt(s: seq<byte>, i: nat, t: seq<byte>, k: nat)
    requires Here(s, i, t) && k < |t|
    ensures At(s, i + k) == t[k]
  {
    MatchesAt(s, i, t, 0, k);
  }

  lemma {:induction false} AllMatch(s: seq<byte>, i: nat, t: seq<byte>, k: nat)
    requires k <= |t| && forall m :: k <= m < |t| ==> At(s, i + m) == t[m]
    ensures Matches(s, i + k, t, k)
    decreases |t| - k
  {
    if k < |t| {
      AllMatch(s, i, t, k + 1);
    }
  }

  lemma HereSplit(s: seq<byte>, i: nat, a: seq<byte>, b: seq<byte>)
    requires Here(s, i, a + b)
    ensures Here(s, i, a) && Here(s, i + |a|, b)
  {
    forall m | 0 <= m < |a|
      ensures At(s, i + m) == a[m]
    {
      HereAt(s, i, a + b, m);
    }
    forall m | 0 <= m < |b|
      ensures At(s, i + |a| + m) == b[m]
    {
      HereAt(s, i, a + b, |a| + m);
    }
    AllMatch(s, i, a, 0);
    AllMatch(s, i + |a|, b, 0);
  }

  lemma HereOne(s: seq<byte>, i: nat, b: byte)
    requires Here(s, i, [b])
    ensures At(s, i) == b && i < |s|
  {
    HereAt(s, i, [b], 0);
  }

  // ------------------------------------------------------------------- strings

  lemma HexInverse(d: nat)
    requires d < 16
    ensures HexValue(HexDigit(d)) == d && HexDigit(d) != QUOTE && HexDigit(d) != BACKSLASH && HexDigit(d) > 32
  {
  }

  /** The bytes of an escape, one by one. */
  lemma EscapeBytes(b: byte, slashes: bool, s: seq<byte>, i: nat)
    requires Here(s, i, Escape(b, slashes))
    ensures var e := Escape(b, slashes);
            && s[i] == e[0] && (|e| > 1 ==> s[i + 1] == e[1])
            && (|e| == 6 ==> s[i + 2] == e[2] && s[i + 3] == e[3] && s[i + 4] == e[4] && s[i + 5] == e[5])
  {
    var e := Escape(b, slashes);
    HereAt(s, i, e, 0);
    if |e| > 1 {
      HereAt(s, i, e, 1);
    }
    if |e| == 6 {
      HereAt(s, i, e, 2);
      HereAt(s, i, e, 3);
      HereAt(s, i, e, 4);
      HereAt(s, i, e, 5);
    }
  }

  /** One escaped byte is one character of a string. */
  lemma EscapePiece(b: byte, slashes: bool, s: seq<byte>, i: nat)
    requires Here(s, i, Escape(b, slashes))
    ensures Piece(s, i, i + |Escape(b, slashes)|, [b])
  {
    EscapeBytes(b, slashes, s, i);
    if |Escape(b, slashes)| == 6 {
      HexInverse(b / 16);
      HexInverse(b % 16);
      assert Hex4(s, i + 2) == Some(b as nat);
      Hex4Agrees(s, i + 2);
      assert Unit(s, i) == Some(b as int);
    }
  }

  lemma EscapedSplit(x: seq<byte>, slashes: bool, s: seq<byte>, i: nat) returns (j: nat)
    requires x != [] && Here(s, i, EscapeAll(x, slashes))
    ensures j == i + |Escape(x[0], slashes)| && Here(s, i, Escape(x[0], slashes))
    ensures Here(s, j, EscapeAll(x[1..], slashes)) && i + |EscapeAll(x, slashes)| == j + |EscapeAll(x[1..], slashes)|
  {
    assert EscapeAll(x, slashes) == EscapeFirst(x, slashes);
    HereSplit(s, i, Escape(x[0], slashes), EscapeAll(x[1..], slashes));
    j := i + |Escape(x[0], slashes)|;
  }

  lemma {:induction false} EscapedChars(x: seq<byte>, slashes: bool, s: seq<byte>, i: nat)
    requires Here(s, i, EscapeAll(x, slashes))
    ensures Chars(x, s, i, i + |EscapeAll(x, slashes)|)
  {
    if x != [] {
      var j := EscapedSplit(x, slashes, s, i);
      EscapePiece(x[0], slashes, s, i);
      EscapedChars(x[1..], slashes, s, j);
      assert x[..1] == [x[0]] && Piece(s, i, j, x[..1]);
      assert CharAndMore(x, s, i, i + |EscapeAll(x, slashes)|);
    }
  }

  lemma QuotedPlaces(x: seq<byte>, slashes: bool, s: seq<byte>, i: nat) returns (end: nat)
    requires Here(s, i, Quoted(x, slashes))
    ensures At(s, i) == QUOTE && Here(s, i + 1, EscapeAll(x, slashes)) && end == i + 1 + |EscapeAll(x, slashes)|
    ensures At(s, end) == QUOTE && i + |Quoted(x, slashes)| == end + 1
  {
    var e := EscapeAll(x, slashes);
    HereSplit(s, i, [QUOTE] + e, [QUOTE]);
    HereSplit(s, i, [QUOTE], e);
    end := i + 1 + |e|;
    HereOne(s, i, QUOTE);
    HereOne(s, end, QUOTE);
  }

  lemma QuotedStands(x: seq<byte>, slashes: bool, s: seq<byte>, i: nat)
    requires Here(s, i, Quoted(x, slashes))
    ensures StringStands(x, s, i, i + |Quoted(x, slashes)|)
  {
    var end := QuotedPlaces(x, slashes, s, i);
    EscapedChars(x, slashes, s, i + 1);
  }

  /** A quoted string reads back, and the cursor stops behind it. */
  lemma QuotedRoundTrip(x: seq<byte>, slashes: bool, s: seq<byte>, i: nat)
    requires Here(s, i, Quoted(x, slashes))
    ensures ParseQuoted(s, i) == Some((x, i + |Quoted(x, slashes)|))
  {
    QuotedStands(x, slashes, s, i);
    StringRead(x, s, i, i + |Quoted(x, slashes)|);
  }

  // ------------------------------------------------------------------- numbers

  /** Only digits from `i` to `end`. */
  predicate AllDigits(s: seq<byte>, i: nat, end: nat)
    requires i <= end <= |s|
  {
    forall k :: i <= k < end ==> IsDigit(s[k])
  }

  lemma {:induction false} DigitsRead(n: nat, s: seq<byte>, i: nat)
    requires Here(s, i, Digits(n))
    ensures var end := i + |Digits(n)|; AllDigits(s, i, end) && DigitsValue(s, i, end) == n
    ensures n > 0 ==> s[i] != 48
    ensures |Digits(n)| > 1 ==> n > 0
  {
    if n < 10 {
      HereOne(s, i, 48 + n);
      assert DigitsValue(s, i, i) == 0;
    } else {
      assert Digits(n) == DigitsAndLast(n);
      HereSplit(s, i, Digits(n / 10), [48 + n % 10]);
      DigitsRead(n / 10, s, i);
      HereOne(s, i + |Digits(n / 10)|, 48 + n % 10);
    }
  }

  /** A byte that ends a number: no digit, point, exponent or hexadecimal mark. */
  predicate Stops(b: byte) {
    !IsDigit(b) && b != POINT && !IsLetter(b, 101) && !IsLetter(b, 120)
  }

  lemma NumberTextStands(n: int, s: seq<byte>, i: nat)
    requires Here(s, i, NumberText(n)) && Stops(At(s, i + |NumberText(n)|))
    ensures NumberStands(n, s, i, i + |NumberText(n)|)
  {
    var m: nat := if n < 0 then -n else n;
    var start := if n < 0 then i + 1 else i;
    if n < 0 {
      HereSplit(s, i, [MINUS], Digits(m));
      HereOne(s, i, MINUS);
    }
    DigitsRead(m, s, start);
    DigitsBegin(m);
    GoesOnExact(s, start, start + |Digits(m)|);
    assert DigitsStand(m, s, start, start + |Digits(m)|);
  }

  // -------------------------------------------------------------------- values

  lemma TextBegins(v: Json, slashes: bool)
    ensures Text(v, slashes) != [] && Begins(Text(v, slashes)[0]) && Text(v, slashes)[0] < 0x80
  {
    if v.Number? {
      DigitsBegin(if v.n < 0 then -v.n else v.n);
    }
  }

  lemma {:induction false} DigitsBegin(n: nat)
    ensures IsDigit(Digits(n)[0])
  {
    if n >= 10 {
      DigitsBegin(n / 10);
    }
  }

  lemma TokenHere(s: seq<byte>, i: nat, token: seq<byte>)
    requires Here(s, i, token) && 0 !in token
    ensures TokenStands(token, s, i, i + |token|)
  {
    TokenExact(s, i, token);
  }

  /** A scalar that is written stands in the text. */
  lemma ScalarStands(v: Json, slashes: bool, s: seq<byte>, i: nat)
    requires !v.Arr? && !v.Obj? && Here(s, i, Text(v, slashes))
    requires v.Number? ==> Stops(At(s, i + |Text(v, slashes)|))
    ensures Stands(v, s, i, i + |Text(v, slashes)|)
  {
    TextBegins(v, slashes);
    match v {
      case Null => TokenHere(s, i, NULL_TEXT);
      case Bool(b) => TokenHere(s, i, if b then TRUE_TEXT else FALSE_TEXT);
      case Number(n) => NumberTextStands(n, s, i);
      case Str(x) => QuotedStands(x, slashes, s, i);
    }
  }

  lemma Bracketed(s: seq<byte>, i: nat, open: byte, t: seq<byte>, close: byte)
    requires Here(s, i, [open] + t + [close])
    ensures i + 1 + |t| < |s| && s[i] == open && Here(s, i + 1, t) && s[i + 1 + |t|] == close
  {
    HereSplit(s, i, [open] + t, [close]);
    HereSplit(s, i, [open], t);
    HereOne(s, i, open);
    HereOne(s, i + 1 + |t|, close);
  }

  lemma ItemSplit(s: seq<byte>, i: nat, t: seq<byte>, sep: seq<byte>, more: seq<byte>)
    requires Here(s, i, t + sep + more)
    ensures Here(s, i, t) && Here(s, i + |t|, sep) && Here(s, i + |t| + |sep|, more)
  {
    HereSplit(s, i, t + sep, more);
    HereSplit(s, i, t, sep);
  }

  lemma MemberSplit(s: seq<byte>, i: nat, q: seq<byte>, t: seq<byte>, sep: seq<byte>, more: seq<byte>)
    requires Here(s, i, q + [COLON] + t + sep + more)
    ensures var at := i + |q| + 1;
            && Here(s, i, q) && at <= |s| && s[at - 1] == COLON
            && Here(s, at, t) && Here(s, at + |t|, sep) && Here(s, at + |t| + |sep|, more)
  {
    HereSplit(s, i, q + [COLON] + t + sep, more);
    HereSplit(s, i, q + [COLON] + t, sep);
    HereSplit(s, i, q + [COLON], t);
    HereSplit(s, i, q, [COLON]);
    HereOne(s, i + |q|, COLON);
  }

  lemma {:induction false} NameAt(members: seq<Member>, k: nat)
    requires NamesOk(members) && k < |members|
    ensures !HasKey(members[..k], members[k].key) && 0 !in members[k].key
  {
    if k < |members| - 1 {
      var front := members[..|members| - 1];
      NameAt(front, k);
      assert front[..k] == members[..k];
    }
  }

  // ------------------------------------------------- the serializer writes it

  /** What the serializer writes for a value is, wherever it stands, a text of the value, if behind a number comes a
      byte which ends it. */
  lemma {:induction false} TextStands(v: Json, slashes: bool, s: seq<byte>, i: nat)
    requires Proper(v) && Here(s, i, Text(v, slashes)) && (v.Number? ==> Stops(At(s, i + |Text(v, slashes)|)))
    ensures Stands(v, s, i, i + |Text(v, slashes)|)
    decreases v, 1, 0
  {
    if v.Arr? {
      Bracketed(s, i, OPEN_ARRAY, ItemsText(v, 0, slashes), CLOSE_ARRAY);
      ArrayTextStands(v, slashes, s, i, i + 1 + |ItemsText(v, 0, slashes)|);
    } else if v.Obj? {
      Bracketed(s, i, OPEN_OBJECT, MembersText(v, 0, slashes), CLOSE_OBJECT);
      ObjectTextStands(v, slashes, s, i, i + 1 + |MembersText(v, 0, slashes)|);
    } else {
      ScalarStands(v, slashes, s, i);
    }
  }

  lemma {:induction false} ArrayTextStands(v: Json, slashes: bool, s: seq<byte>, i: nat, end: nat)
    requires v.Arr? && Proper(v) && end < |s| && end == i + 1 + |ItemsText(v, 0, slashes)|
    requires s[i] == OPEN_ARRAY && Here(s, i + 1, ItemsText(v, 0, slashes)) && s[end] == CLOSE_ARRAY
    ensures Stands(v, s, i, end + 1)
    decreases v, 0, |v.items| + 1
  {
    if v.items != [] {
      ItemsTextStand(v, 0, slashes, s, i + 1, end);
      assert ItemsFrom(v, 0, s, i + 1, end);
    }
    assert ArrayStands(v, s, i, end + 1);
  }

  lemma {:induction false} ItemsTextStand(v: Json, k: nat, slashes: bool, s: seq<byte>, i: nat, end: nat)
    requires v.Arr? && Proper(v) && k < |v.items| && Here(s, i, ItemsText(v, k, slashes))
    requires end == i + |ItemsText(v, k, slashes)| < |s| && s[end] == CLOSE_ARRAY
    ensures ItemsStand(v, k, s, i, end)
    decreases v, 0, |v.items| - k, 1
  {
    var j := i + |Text(v.items[k], slashes)|;
    ItemSplit(s, i, Text(v.items[k], slashes), Separator(k, |v.items|), ItemsText(v, k + 1, slashes));
    if k + 1 < |v.items| {
      HereOne(s, j, COMMA);
      TextStands(v.items[k], slashes, s, i);
      LaterItemsStand(v, k, slashes, s, i, j, end);
    } else {
      TextStands(v.items[k], slashes, s, i);
      LastItemStands(v, k, s, i, j, j, end);
    }
  }

  lemma {:induction false} LaterItemsStand(v: Json, k: nat, slashes: bool, s: seq<byte>, i: nat, j: nat, end: nat)
    requires v.Arr? && Proper(v) && k + 1 < |v.items| && Stands(v.items[k], s, i, j)
    requires j < |s| && s[j] == COMMA && Here(s, j + 1, ItemsText(v, k + 1, slashes))
    requires end == j + 1 + |ItemsText(v, k + 1, slashes)| < |s| && s[end] == CLOSE_ARRAY
    ensures ItemsStand(v, k, s, i, end)
    decreases v, 0, |v.items| - k, 0
  {
    ItemsTextStand(v, k + 1, slashes, s, j + 1, end);
    ItemAndMoreStand(v, k, s, i, j, j, j + 1, end);
  }

  lemma {:induction false} ObjectTextStands(v: Json, slashes: bool, s: seq<byte>, i: nat, end: nat)
    requires v.Obj? && Proper(v) && end < |s| && end == i + 1 + |MembersText(v, 0, slashes)|
    requires s[i] == OPEN_OBJECT && Here(s, i + 1, MembersText(v, 0, slashes)) && s[end] == CLOSE_OBJECT
    ensures Stands(v, s, i, end + 1)
    decreases v, 0, |v.members| + 1
  {
    if v.members != [] {
      MembersTextStand(v, 0, slashes, s, i + 1, end);
      assert MembersFrom(v, 0, s, i + 1, end);
    }
    assert ObjectStands(v, s, i, end + 1);
  }

  /** Where the parts of member `k` stand. */
  lemma {:induction false} MemberPlaces(v: Json, k: nat, slashes: bool, s: seq<byte>, i: nat) returns (at: nat, j: nat)
    requires v.Obj? && k < |v.members| && Here(s, i, MembersText(v, k, slashes)) && 0 !in v.members[k].key
    ensures NameStands(v.members[k].key, s, i, at)
    ensures Here(s, at, Text(v.members[k].value, slashes)) && j == at + |Text(v.members[k].value, slashes)|
    ensures if k + 1 < |v.members|
            then j < |s| && s[j] == COMMA && Here(s, j + 1, MembersText(v, k + 1, slashes))
                 && i + |MembersText(v, k, slashes)| == j + 1 + |MembersText(v, k + 1, slashes)|
            else i + |MembersText(v, k, slashes)| == j
  {
    var m := v.members[k];
    var q, t := Quoted(m.key, slashes), Text(m.value, slashes);
    MemberSplit(s, i, q, t, Separator(k, |v.members|), MembersText(v, k + 1, slashes));
    at := i + |q| + 1;
    j := at + |t|;
    QuotedStands(m.key, slashes, s, i);
    assert StringStands(m.key, s, i, at - 1) && Spaces(s, at - 1, at - 1);
    if k + 1 < |v.members| {
      HereOne(s, j, COMMA);
    }
  }

  lemma {:induction false} MembersTextStand(v: Json, k: nat, slashes: bool, s: seq<byte>, i: nat, end: nat)
    requires v.Obj? && Proper(v) && k < |v.members| && Here(s, i, MembersText(v, k, slashes))
    requires end == i + |MembersText(v, k, slashes)| < |s| && s[end] == CLOSE_OBJECT
    ensures MembersStand(v, k, s, i, end)
    decreases v, 0, |v.members| - k, 1
  {
    var at, j := MemberTextStands(v, k, slashes, s, i, end);
    if k + 1 < |v.members| {
      LaterMembersStand(v, k, slashes, s, i, at, j, end);
    } else {
      FinalMemberStands(v, k, s, i, at, j);
    }
  }

  lemma {:induction false} LaterMembersStand(v: Json, k: nat, slashes: bool, s: seq<byte>, i: nat, at: nat, j: nat,
                                             end: nat)
    requires v.Obj? && Proper(v) && k + 1 < |v.members| && MemberStands(v.members[k], s, i, at, at, j, j)
    requires j < |s| && s[j] == COMMA && Here(s, j + 1, MembersText(v, k + 1, slashes))
    requires end == j + 1 + |MembersText(v, k + 1, slashes)| < |s| && s[end] == CLOSE_OBJECT
    ensures MembersStand(v, k, s, i, end)
    decreases v, 0, |v.members| - k, 0
  {
    MembersTextStand(v, k + 1, slashes, s, j + 1, end);
    CompactMember(v, k, s, i, at, j, end);
  }

  /** A member and those behind it, without white space. */
  lemma {:induction false} CompactMember(v: Json, k: nat, s: seq<byte>, i: nat, at: nat, j: nat, end: nat)
    requires v.Obj? && k + 1 < |v.members| && MemberStands(v.members[k], s, i, at, at, j, j)
    requires j < |s| && s[j] == COMMA && MembersStand(v, k + 1, s, j + 1, end) && j <= end < |s|
    ensures MembersStand(v, k, s, i, end)
  {
    assert Spaces(s, j + 1, j + 1);
    MemberAndMoreStand(v, k, s, i, at, at, j, j, j + 1, end);
  }

  lemma {:induction false} MemberTextStands(v: Json, k: nat, slashes: bool, s: seq<byte>, i: nat, end: nat)
    returns (at: nat, j: nat)
    requires v.Obj? && Proper(v) && k < |v.members| && Here(s, i, MembersText(v, k, slashes))
    requires end == i + |MembersText(v, k, slashes)| < |s| && s[end] == CLOSE_OBJECT
    ensures MemberStands(v.members[k], s, i, at, at, j, j)
    ensures if k + 1 < |v.members|
            then j < |s| && s[j] == COMMA && Here(s, j + 1, MembersText(v, k + 1, slashes))
                 && end == j + 1 + |MembersText(v, k + 1, slashes)|
            else end == j
    decreases v, 0, |v.members| - k, 0
  {
    NameAt(v.members, k);
    at, j := MemberPlaces(v, k, slashes, s, i);
    TextStands(v.members[k].value, slashes, s, at);
  }

  lemma {:induction false} FinalMemberStands(v: Json, k: nat, s: seq<byte>, i: nat, at: nat, end: nat)
    requires v.Obj? && k + 1 == |v.members| && end < |s| && MemberStands(v.members[k], s, i, at, at, end, end)
    ensures MembersStand(v, k, s, i, end)
  {
    assert MoreMembers(v, k, s, end, end);
    MemberMade(v, k, s, i, at, at, end, end, end);
  }

  lemma {:induction false} ProperDiffers(v: Json)
    requires Proper(v)
    ensures NamesDiffer(v)
    decreases v
  {
    match v
    case Arr(items) =>
      forall i | 0 <= i < |items|
        ensures NamesDiffer(items[i])
      {
        ProperDiffers(items[i]);
      }
    case Obj(members) =>
      forall i | 0 <= i < |members|
        ensures NamesDiffer(members[i].value)
      {
        ProperDiffers(members[i].value);
      }
      NamesOkDiffer(members, 0);
    case _ =>
  }

  lemma {:induction false} NamesOkDiffer(members: seq<Member>, from: nat)
    requires NamesOk(members)
    ensures NewNames(members, from)
    decreases |members| - from
  {
    if from < |members| {
      NameAt(members, from);
      UsesPrefix(members, members[from].key, from);
      NamesOkDiffer(members, from + 1);
    }
  }

  // ------------------------------------------------------------------ theorems

  /** Serializing then parsing gives back the same value, keys in the same order, exactly when at most 2048
      containers enclose any value; beyond that the parser refuses what the serializer wrote. */
  lemma {:induction false} RoundTrip(v: Json, slashes: bool)
    requires Proper(v)
    ensures Parse(Text(v, slashes)) == (if Depth(v) <= MAX_NESTING then Some(v) else None)
  {
    WholeText(v, slashes);
    ProperDiffers(v);
    ReadsWhole(v, Text(v, slashes));
  }

  lemma {:induction false} WholeText(v: Json, slashes: bool)
    requires Proper(v)
    ensures Stands(v, Text(v, slashes), 0, |Text(v, slashes)|) && Text(v, slashes)[0] < 0x80
  {
    var s := Text(v, slashes);
    AllMatch(s, 0, s, 0);
    TextBegins(v, slashes);
    TextStands(v, slashes, s, 0);
  }

  lemma {:induction false} ReadsWhole(v: Json, s: seq<byte>)
    requires NamesDiffer(v) && Stands(v, s, 0, |s|) && s[0] < 0x80
    ensures Parse(s) == (if Depth(v) <= MAX_NESTING then Some(v) else None)
  {
    ValueRead(v, s, 0, 0, |s|, 0);
    NoMark(s);
  }

  lemma NoMark(s: seq<byte>)
    requires s != [] && s[0] < 0x80
    ensures Start(s) == 0
  {
  }

  /** Different values have different texts. */
  lemma {:induction false} TextInjective(a: Json, b: Json, slashes: bool)
    requires Proper(a) && Proper(b) && Depth(a) <= MAX_NESTING && Text(a, slashes) == Text(b, slashes)
    ensures a == b
  {
    RoundTrip(a, slashes);
    RoundTrip(b, slashes);
  }

  // -------------------------------------------------------------- shortest texts

  /** How the serializer writes a byte of a string: quotation marks, backslashes, on demand slashes, and the control
      characters that have one, by their letter; the other control characters by lower-case digits; all else plainly. */
  lemma EscapeMeans(b: byte, slashes: bool)
    ensures var e := Escape(b, slashes);
            if b in {34, 92, 8, 9, 10, 12, 13} || (b == 47 && slashes) then
              |e| == 2 && e[0] == 92 && e[1] in LetterEscapes() && LetterEscapes()[e[1]] == b
            else if b < 32 then
              && e[..4] == [92, 117, 48, 48] && |e| == 6 && FourDigits(e, 2) == Some(b as int)
              && !(65 <= e[4] <= 70) && !(65 <= e[5] <= 70)
            else e == [b]
  {
  }

  lemma {:induction false} EscapeAllAppend(a: seq<byte>, b: seq<byte>)
    ensures EscapeAll(a + b, false) == EscapeAll(a, false) + EscapeAll(b, false)
  {
    if a == [] {
      assert a + b == b;
    } else {
      assert (a + b)[1..] == a[1..] + b && (a + b)[0] == a[0];
      EscapeAllAppend(a[1..], b);
    }
  }

  lemma {:induction false} PlainEscapes(out: seq<byte>)
    requires forall k :: 0 <= k < |out| ==> out[k] >= 0x80
    ensures EscapeAll(out, false) == out
  {
    if out != [] {
      PlainEscapes(out[1..]);
      assert [out[0]] + out[1..] == out;
    }
  }

  lemma OneEscape(b: byte)
    ensures EscapeAll([b], false) == Escape(b, false)
  {
    assert [b][1..] == [] && EscapeAll([], false) == [];
    assert EscapeAll([b], false) == EscapeFirst([b], false) == Escape(b, false) + EscapeAll([b][1..], false);
  }

  lemma Utf8Escapes(out: seq<byte>, cp: int)
    requires IsUtf8(out, cp)
    ensures |EscapeAll(out, false)| <= 6
  {
    if |out| == 1 {
      assert out == [out[0]];
      OneEscape(out[0]);
    } else {
      PlainEscapes(out);
    }
  }

  lemma PieceShortest(s: seq<byte>, i: nat, j: nat, out: seq<byte>)
    requires Piece(s, i, j, out)
    ensures |EscapeAll(out, false)| <= j - i
  {
    if j <= i + 2 {
      OneEscape(out[0]);
    } else if j == i + 6 {
      Utf8Escapes(out, Unit(s, i).value);
    } else {
      Utf8Escapes(out, PairValue(Unit(s, i).value, Unit(s, i + 6).value));
    }
  }

  lemma {:induction false} CharsShortest(t: seq<byte>, s: seq<byte>, i: nat, end: nat)
    requires Chars(t, s, i, end) && i <= end
    ensures |EscapeAll(t, false)| <= end - i
    decreases end - i
  {
    if !(i == end && t == []) {
      assert CharAndMore(t, s, i, end);
      var j: nat, k: nat :| i < j <= end && k <= |t| && Piece(s, i, j, t[..k]) && Chars(t[k..], s, j, end);
      PieceShortest(s, i, j, t[..k]);
      CharsShortest(t[k..], s, j, end);
      EscapeAllAppend(t[..k], t[k..]);
      assert t[..k] + t[k..] == t;
    }
  }

  lemma {:induction false} DigitsLength(s: seq<byte>, i: nat, end: nat)
    requires i < end <= |s| && AllDigits(s, i, end) && (s[i] == 48 ==> end == i + 1)
    ensures DigitsValue(s, i, end) >= (if s[i] == 48 then 0 else 1)
    ensures |Digits(DigitsValue(s, i, end))| == end - i
    decreases end - i
  {
    if end > i + 1 {
      DigitsLength(s, i, end - 1);
      var n := DigitsValue(s, i, end);
      assert n / 10 == DigitsValue(s, i, end - 1) && n >= 10;
      assert Digits(n) == DigitsAndLast(n);
    } else {
      assert DigitsValue(s, i, i) == 0;
    }
  }

  lemma NumberShortest(n: int, s: seq<byte>, i: nat, end: nat)
    requires NumberStands(n, s, i, end)
    ensures |NumberText(n)| <= end - i || (end == i && At(s, i) == 45)
  {
    if DigitsStand(n, s, i, end) {
      DigitsLength(s, i, end);
    } else if At(s, i) == 45 && DigitsStand(-n, s, i + 1, end) {
      DigitsLength(s, i + 1, end);
    }
  }

  /** No text of a value is shorter than the one that the serializer writes without escaping slashes; the only
      exception is the bare minus sign, which the parser takes for 0. */
  lemma {:induction false} ShortestText(v: Json, s: seq<byte>, i: nat, end: nat)
    requires Stands(v, s, i, end)
    ensures |Text(v, false)| <= end - i || (end == i && At(s, i) == 45)
    decreases v, 1, 0
  {
    match v
    case Arr(items) =>
      assert ArrayStands(v, s, i, end);
      if items != [] {
        var a := FirstItem(v, 0, s, i + 1, end - 1);
        ItemsShortest(v, 0, s, a, end - 1);
      }
    case Obj(members) =>
      assert ObjectStands(v, s, i, end);
      if members != [] {
        var a := FirstMember(v, 0, s, i + 1, end - 1);
        MembersShortest(v, 0, s, a, end - 1);
      }
    case Number(n) => NumberShortest(n, s, i, end);
    case Str(t) => CharsShortest(t, s, i + 1, end - 1);
    case _ =>
  }

  lemma {:induction false} ItemsShortest(v: Json, k: nat, s: seq<byte>, i: nat, end: nat)
    requires v.Arr? && k < |v.items| && ItemsStand(v, k, s, i, end) && end < |s| && s[end] == 93
    ensures i <= end && |ItemsText(v, k, false)| <= end - i
    decreases v, 0, |v.items| - k
  {
    var j, b := ItemPlaces(v, k, s, i, end);
    ShortestText(v.items[k], s, i, j);
    NotStuck(s, i, j, b, end, 93);
    if k + 1 < |v.items| {
      var c := FirstItem(v, k + 1, s, b + 1, end);
      ItemsShortest(v, k + 1, s, c, end);
    }
  }

  /** A bare minus sign is no item or member: neither a comma nor a bracket stands where it leaves the cursor. */
  lemma NotStuck(s: seq<byte>, i: nat, j: nat, b: nat, end: nat, close: byte)
    requires Spaces(s, j, b) && b <= end < |s| && s[end] == close && close != 45 && (b == end || s[b] == 44)
    ensures !(j == i && At(s, i) == 45)
  {
  }

  lemma {:induction false} MembersShortest(v: Json, k: nat, s: seq<byte>, i: nat, end: nat)
    requires v.Obj? && k < |v.members| && MembersStand(v, k, s, i, end) && end < |s| && s[end] == 125
    ensures i <= end && |MembersText(v, k, false)| <= end - i
    decreases v, 0, |v.members| - k
  {
    var at, r, j, b := MemberFound(v, k, s, i, end);
    ShortestText(v.members[k].value, s, r, j);
    NotStuck(s, r, j, b, end, 125);
    NameShortest(v.members[k].key, s, i, at);
    if k + 1 < |v.members| {
      var c := FirstMember(v, k + 1, s, b + 1, end);
      MembersShortest(v, k + 1, s, c, end);
    }
  }

  lemma NameShortest(key: seq<byte>, s: seq<byte>, i: nat, at: nat)
    requires NameStands(key, s, i, at)
    ensures |Quoted(key, false)| + 1 <= at - i
  {
    var p: nat :| StringStands(key, s, i, p) && Spaces(s, p, at - 1);
    CharsShortest(key, s, i + 1, p - 1);
  }

  /** A number is accepted without any progress if and only if it is a minus sign behind which `strtod` finds
      nothing to convert. */
  lemma StuckNumber(s: seq<byte>, i: nat)
    requires i < |s| && (s[i] == MINUS || IsDigit(s[i]))
    ensures ParseNumber(s, i).Some? && ParseNumber(s, i).value.1 == i <==> s[i] == MINUS && !NumberBegins(s, i + 1)
    ensures s[i] == MINUS && !NumberBegins(s, i + 1) ==> ParseNumber(s, i) == Some((Number(0), i))
  {
    NumberBeginsExact(s, i + 1);
    if s[i] != MINUS {
      assert Run(s, i) >= i + 1;
    }
  }

  /** Every text that begins so, behind white space, parses as zero. */
  lemma BareMinusIsZero(s: seq<byte>)
    requires var i := SkipSpace(s, Start(s)); At(s, i) == MINUS && !NumberBegins(s, i + 1)
    ensures Parse(s) == Some(Number(0))
  {
    var i := SkipSpace(s, Start(s));
    StuckNumber(s, i);
    assert ParseScalar(s, i) == Some((Number(0), i));
    assert ParseAt(s, i, 0) == Some((Number(0), i));
  }
}
