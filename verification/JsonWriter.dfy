/** The serializer as the C code runs it: one recursive pass that either writes into a buffer or, with no buffer,
    only counts. */
module JsonWriter {
  import opened Bytes
  import opened Json

  /** `t` stands in the buffer from `base` on, if there is a buffer. */
  ghost predicate Holds(buf: array?<byte>, base: nat, t: seq<byte>)
    reads buf
  {
    buf == null || (base + |t| <= buf.Length && buf[base..base + |t|] == t)
  }

  /** The buffer, if there is one, has room for `n` bytes from `base` on and the terminating 0. */
  predicate Room(buf: array?<byte>, base: nat, n: nat) {
    buf == null || base + n < buf.Length
  }

  /** The terminating 0 stands at `at`. */
  ghost predicate Ended(buf: array?<byte>, at: nat)
    reads buf
  {
    buf == null || (at < buf.Length && buf[at] == 0)
  }

  /** Everything before `base` is as in `was`. */
  ghost predicate Kept(buf: array?<byte>, base: nat, was: seq<byte>)
    reads buf
  {
    buf == null || (base <= buf.Length && base <= |was| && buf[..base] == was[..base])
  }

  ghost function Contents(buf: array?<byte>): seq<byte>
    reads buf
  {
    if buf == null then [] else buf[..]
  }

  /** The text `pre` stands from `base` on, and everything before it is as in `was`. */
  ghost predicate Wrote(buf: array?<byte>, base: nat, pre: seq<byte>, was: seq<byte>)
    reads buf
  {
    Holds(buf, base, pre) && Kept(buf, base, was)
  }

  /** A text written behind another, with what came before left alone. */
  lemma Joined(buf: array?<byte>, base: nat, pre: seq<byte>, t: seq<byte>, mid: seq<byte>, was: seq<byte>)
    requires Kept(buf, base + |pre|, mid) && Holds(buf, base + |pre|, t)
    requires buf != null ==> base + |pre| <= |mid| && mid[base..base + |pre|] == pre
    requires buf != null ==> base <= |was| && mid[..base] == was[..base]
    ensures Wrote(buf, base, pre + t, was)
  {
    if buf != null {
      var end := base + |pre|;
      assert buf[base..end] == buf[..end][base..] == mid[..end][base..] == mid[base..end];
      assert buf[base..end + |t|] == buf[base..end] + buf[end..end + |t|];
      assert buf[..base] == buf[..end][..base] == mid[..end][..base] == mid[..base];
    }
  }

  /** Writes a token; the loop is that of `memcpy`. */
  method Append(buf: array?<byte>, at: nat, token: seq<byte>)
    requires Room(buf, at, |token|)
    modifies if buf == null then {} else {buf}
    ensures Kept(buf, at, old(Contents(buf))) && Holds(buf, at, token) && Ended(buf, at + |token|)
  {
    if buf == null {
      return;
    }
    var k := 0;
    while k < |token|
      invariant 0 <= k <= |token|
      invariant buf[..at] == old(buf[..at]) && buf[at..at + k] == token[..k]
    {
      buf[at + k] := token[k];
      k := k + 1;
    }
    buf[at + |token|] := 0;
    assert buf[at..at + |token|] == token[..k];
  }

  /** Writes a token behind the text `pre` that begins at `base`. */
  method AppendTo(buf: array?<byte>, ghost base: nat, ghost pre: seq<byte>, ghost was: seq<byte>, at: nat,
                  token: seq<byte>)
    requires at == base + |pre| && Wrote(buf, base, pre, was) && Room(buf, at, |token|)
    modifies if buf == null then {} else {buf}
    ensures Wrote(buf, base, pre + token, was) && Ended(buf, at + |token|)
  {
    Append(buf, at, token);
    Joined(buf, base, pre, token, old(Contents(buf)), was);
  }

  // ------------------------------------------------------------------- strings

  lemma {:induction false} EscapeSplit(x: seq<byte>, i: nat, slashes: bool)
    requires i <= |x|
    ensures EscapeAll(x, slashes) == EscapeAll(x[..i], slashes) + EscapeAll(x[i..], slashes)
  {
    if i > 0 {
      EscapeSplit(x[1..], i - 1, slashes);
      assert x[..i][1..] == x[1..][..i - 1] && x[1..][i - 1..] == x[i..];
      assert EscapeAll(x, slashes) == EscapeFirst(x, slashes);
      assert EscapeAll(x[..i], slashes) == EscapeFirst(x[..i], slashes);
    } else {
      assert x[..0] == [] && x[0..] == x;
    }
  }

  /** One more byte of the string. */
  lemma EscapeNext(x: seq<byte>, i: nat, slashes: bool)
    requires i < |x|
    ensures EscapeAll(x[..i + 1], slashes) == EscapeAll(x[..i], slashes) + Escape(x[i], slashes)
    ensures |EscapeAll(x[..i + 1], slashes)| <= |EscapeAll(x, slashes)|
  {
    var y := x[..i + 1];
    EscapeSplit(y, i, slashes);
    assert y[..i] == x[..i] && y[i..] == [x[i]];
    OneEscape(x[i], slashes);
    EscapeSplit(x, i + 1, slashes);
  }

  lemma OneEscape(b: byte, slashes: bool)
    ensures EscapeAll([b], slashes) == Escape(b, slashes)
  {
    assert EscapeAll([b], slashes) == EscapeFirst([b], slashes);
    assert [b][1..] == [];
  }

  /** `json_serialize_string`. */
  method SerializeString(x: seq<byte>, buf: array?<byte>, base: nat, slashes: bool) returns (written: nat)
    requires Room(buf, base, |Quoted(x, slashes)|)
    modifies if buf == null then {} else {buf}
    ensures written == |Quoted(x, slashes)|
    ensures Kept(buf, base, old(Contents(buf))) && Holds(buf, base, Quoted(x, slashes)) && Ended(buf, base + written)
  {
    ghost var was := old(Contents(buf));
    Append(buf, base, [QUOTE]);
    written := SerializeBytes(x, buf, base, was, base + 1, slashes);
    AppendTo(buf, base, [QUOTE] + EscapeAll(x, slashes), was, base + 1 + written, [QUOTE]);
    written := written + 2;
  }

  /** The bytes between the quotes. */
  method SerializeBytes(x: seq<byte>, buf: array?<byte>, ghost base: nat, ghost was: seq<byte>, at: nat, slashes: bool)
    returns (written: nat)
    requires at == base + 1 && Wrote(buf, base, [QUOTE], was) && Room(buf, base, |EscapeAll(x, slashes)| + 2)
    modifies if buf == null then {} else {buf}
    ensures written == |EscapeAll(x, slashes)| && Wrote(buf, base, [QUOTE] + EscapeAll(x, slashes), was)
  {
    written := 0;
    var i := 0;
    assert x[..0] == [] && [QUOTE] + [] == [QUOTE];
    while i < |x|
      invariant 0 <= i <= |x| && written == |EscapeAll(x[..i], slashes)|
      invariant Wrote(buf, base, [QUOTE] + EscapeAll(x[..i], slashes), was)
    {
      var w := SerializeByte(x, i, buf, base, was, at + written, slashes);
      written := written + w;
      i := i + 1;
    }
    assert x[..i] == x;
  }

  /** Byte `i` of the string. */
  method SerializeByte(x: seq<byte>, i: nat, buf: array?<byte>, ghost base: nat, ghost was: seq<byte>, at: nat,
                       slashes: bool)
    returns (written: nat)
    requires i < |x| && at == base + 1 + |EscapeAll(x[..i], slashes)|
    requires Wrote(buf, base, [QUOTE] + EscapeAll(x[..i], slashes), was) && Room(buf, base, |EscapeAll(x, slashes)| + 2)
    modifies if buf == null then {} else {buf}
    ensures Wrote(buf, base, [QUOTE] + EscapeAll(x[..i + 1], slashes), was)
    ensures |EscapeAll(x[..i], slashes)| + written == |EscapeAll(x[..i + 1], slashes)|
  {
    EscapeNext(x, i, slashes);
    var e := Escape(x[i], slashes);
    ghost var pre := [QUOTE] + EscapeAll(x[..i], slashes);
    AppendTo(buf, base, pre, was, at, e);
    assert pre + e == [QUOTE] + EscapeAll(x[..i + 1], slashes);
    written := |e|;
  }

  // -------------------------------------------------------------------- values

  /** `json_serialize_to_buffer_r`, without pretty printing. */
  method Serialize(v: Json, buf: array?<byte>, base: nat, slashes: bool) returns (written: nat)
    requires Room(buf, base, |Text(v, slashes)|)
    modifies if buf == null then {} else {buf}
    ensures written == |Text(v, slashes)|
    ensures Kept(buf, base, old(Contents(buf))) && Holds(buf, base, Text(v, slashes)) && Ended(buf, base + written)
    decreases v, 1
  {
    match v {
      case Arr(_) =>
        written := SerializeArray(v, buf, base, slashes);
      case Obj(_) =>
        written := SerializeObject(v, buf, base, slashes);
      case Str(x) =>
        written := SerializeString(x, buf, base, slashes);
      case Bool(b) =>
        var token := if b then TRUE_TEXT else FALSE_TEXT;
        Append(buf, base, token);
        written := |token|;
      case Number(n) =>
        var digits := NumberText(n);
        Append(buf, base, digits);
        written := |digits|;
      case Null =>
        Append(buf, base, NULL_TEXT);
        written := 4;
    }
  }

  /** A value, then a separator, behind `pre`. */
  method SerializePart(v: Json, sep: seq<byte>, buf: array?<byte>, ghost base: nat, ghost pre: seq<byte>,
                       ghost was: seq<byte>, at: nat, slashes: bool)
    returns (written: nat)
    requires at == base + |pre| && Wrote(buf, base, pre, was) && Room(buf, at, |Text(v, slashes) + sep|)
    modifies if buf == null then {} else {buf}
    ensures written == |Text(v, slashes) + sep|
    ensures Wrote(buf, base, pre + (Text(v, slashes) + sep), was)
    decreases v, 2
  {
    written := Serialize(v, buf, at, slashes);
    ghost var t := Text(v, slashes);
    Joined(buf, base, pre, t, old(Contents(buf)), was);
    if sep != [] {
      AppendTo(buf, base, pre + t, was, at + written, sep);
    }
    assert pre + t + sep == pre + (t + sep);
    written := written + |sep|;
  }

  method SerializeArray(v: Json, buf: array?<byte>, base: nat, slashes: bool) returns (written: nat)
    requires v.Arr? && Room(buf, base, |Text(v, slashes)|)
    modifies if buf == null then {} else {buf}
    ensures written == |Text(v, slashes)|
    ensures Kept(buf, base, old(Contents(buf))) && Holds(buf, base, Text(v, slashes)) && Ended(buf, base + written)
    decreases v, 0, |v.items| + 2
  {
    ghost var was := old(Contents(buf));
    Append(buf, base, [OPEN_ARRAY]);
    written := SerializeItems(v, buf, base, was, base + 1, slashes);
    AppendTo(buf, base, [OPEN_ARRAY] + ItemsText(v, 0, slashes), was, base + 1 + written, [CLOSE_ARRAY]);
    written := written + 2;
  }

  method SerializeItems(v: Json, buf: array?<byte>, ghost base: nat, ghost was: seq<byte>, at: nat, slashes: bool)
    returns (written: nat)
    requires v.Arr? && at == base + 1 && Wrote(buf, base, [OPEN_ARRAY], was)
    requires Room(buf, base, |ItemsText(v, 0, slashes)| + 2)
    modifies if buf == null then {} else {buf}
    ensures written == |ItemsText(v, 0, slashes)| && Wrote(buf, base, [OPEN_ARRAY] + ItemsText(v, 0, slashes), was)
    decreases v, 0, |v.items| + 1
  {
    written := 0;
    ghost var pre := [OPEN_ARRAY];
    ghost var all := [OPEN_ARRAY] + ItemsText(v, 0, slashes);
    var i := 0;
    while i < |v.items|
      invariant 0 <= i <= |v.items| && written + 1 == |pre| && Wrote(buf, base, pre, was)
      invariant pre + ItemsText(v, i, slashes) == all
    {
      var w;
      w, pre := SerializeItem(v, i, buf, base, pre, was, at + written, slashes);
      written := written + w;
      i := i + 1;
    }
    assert pre + [] == pre;
  }

  /** Item `i`, behind `pre`. */
  method SerializeItem(v: Json, i: nat, buf: array?<byte>, ghost base: nat, ghost pre: seq<byte>, ghost was: seq<byte>,
                       at: nat, slashes: bool) returns (written: nat, ghost pre': seq<byte>)
    requires v.Arr? && i < |v.items| && at == base + |pre| && Wrote(buf, base, pre, was)
    requires Room(buf, base, |pre + ItemsText(v, i, slashes)|)
    modifies if buf == null then {} else {buf}
    ensures Wrote(buf, base, pre', was) && |pre'| == |pre| + written
    ensures pre' + ItemsText(v, i + 1, slashes) == pre + ItemsText(v, i, slashes)
    decreases v, 0, |v.items| - i
  {
    var sep := Separator(i, |v.items|);
    ghost var part := Text(v.items[i], slashes) + sep;
    Shift(pre, part, ItemsText(v, i + 1, slashes), pre + ItemsText(v, i, slashes));
    written := SerializePart(v.items[i], sep, buf, base, pre, was, at, slashes);
    pre' := pre + part;
  }

  /** Moving a part from what remains to what is written. */
  lemma Shift(pre: seq<byte>, part: seq<byte>, rest: seq<byte>, all: seq<byte>)
    requires pre + (part + rest) == all
    ensures (pre + part) + rest == all && |pre| + |part| <= |all|
  {
    assert (pre + part) + rest == pre + (part + rest);
  }

  method SerializeObject(v: Json, buf: array?<byte>, base: nat, slashes: bool) returns (written: nat)
    requires v.Obj? && Room(buf, base, |Text(v, slashes)|)
    modifies if buf == null then {} else {buf}
    ensures written == |Text(v, slashes)|
    ensures Kept(buf, base, old(Contents(buf))) && Holds(buf, base, Text(v, slashes)) && Ended(buf, base + written)
    decreases v, 0, |v.members| + 2
  {
    ghost var was := old(Contents(buf));
    Append(buf, base, [OPEN_OBJECT]);
    written := SerializeMembers(v, buf, base, was, base + 1, slashes);
    AppendTo(buf, base, [OPEN_OBJECT] + MembersText(v, 0, slashes), was, base + 1 + written, [CLOSE_OBJECT]);
    written := written + 2;
  }

  method SerializeMembers(v: Json, buf: array?<byte>, ghost base: nat, ghost was: seq<byte>, at: nat, slashes: bool)
    returns (written: nat)
    requires v.Obj? && at == base + 1 && Wrote(buf, base, [OPEN_OBJECT], was)
    requires Room(buf, base, |MembersText(v, 0, slashes)| + 2)
    modifies if buf == null then {} else {buf}
    ensures written == |MembersText(v, 0, slashes)| && Wrote(buf, base, [OPEN_OBJECT] + MembersText(v, 0, slashes), was)
    decreases v, 0, |v.members| + 1
  {
    written := 0;
    ghost var pre := [OPEN_OBJECT];
    ghost var all := [OPEN_OBJECT] + MembersText(v, 0, slashes);
    var i := 0;
    while i < |v.members|
      invariant 0 <= i <= |v.members| && written + 1 == |pre| && Wrote(buf, base, pre, was)
      invariant pre + MembersText(v, i, slashes) == all
    {
      var w;
      w, pre := SerializeMember(v, i, buf, base, pre, was, at + written, slashes);
      written := written + w;
      i := i + 1;
    }
    assert pre + [] == pre;
  }

  /** Member `i`, behind `pre`. */
  method SerializeMember(v: Json, i: nat, buf: array?<byte>, ghost base: nat, ghost pre: seq<byte>,
                         ghost was: seq<byte>,
                         at: nat, slashes: bool) returns (written: nat, ghost pre': seq<byte>)
    requires v.Obj? && i < |v.members| && at == base + |pre| && Wrote(buf, base, pre, was)
    requires Room(buf, base, |pre + MembersText(v, i, slashes)|)
    modifies if buf == null then {} else {buf}
    ensures Wrote(buf, base, pre', was) && |pre'| == |pre| + written
    ensures pre' + MembersText(v, i + 1, slashes) == pre + MembersText(v, i, slashes)
    decreases v, 0, |v.members| - i
  {
    var m, sep := v.members[i], Separator(i, |v.members|);
    ghost var key, part := Quoted(m.key, slashes) + [COLON], Text(m.value, slashes) + sep;
    MemberShift(v, i, slashes, pre, pre + MembersText(v, i, slashes));
    written := SerializeKey(m.key, buf, base, pre, was, at, slashes);
    var w := SerializePart(m.value, sep, buf, base, pre + key, was, at + written, slashes);
    pre' := pre + key + part;
    written := written + w;
  }

  lemma {:induction false} MemberShift(v: Json, i: nat, slashes: bool, pre: seq<byte>, all: seq<byte>)
    requires v.Obj? && i < |v.members| && pre + MembersText(v, i, slashes) == all
    ensures var m := v.members[i];
            var key, part := Quoted(m.key, slashes) + [COLON], Text(m.value, slashes) + Separator(i, |v.members|);
            pre + key + part + MembersText(v, i + 1, slashes) == all && |pre| + |key| + |part| <= |all|
  {
    var m := v.members[i];
    var q, t := Quoted(m.key, slashes), Text(m.value, slashes);
    var sep, rest := Separator(i, |v.members|), MembersText(v, i + 1, slashes);
    RegroupMember(pre, q, t, sep, rest);
  }

  lemma RegroupMember(pre: seq<byte>, q: seq<byte>, t: seq<byte>, sep: seq<byte>, rest: seq<byte>)
    ensures pre + (q + [COLON] + t + sep + rest) == pre + (q + [COLON]) + (t + sep) + rest
  {
  }

  /** A key and its colon, behind `pre`. */
  method SerializeKey(key: seq<byte>, buf: array?<byte>, ghost base: nat, ghost pre: seq<byte>, ghost was: seq<byte>,
                      at: nat, slashes: bool)
    returns (written: nat)
    requires at == base + |pre| && Wrote(buf, base, pre, was) && Room(buf, at, |Quoted(key, slashes) + [COLON]|)
    modifies if buf == null then {} else {buf}
    ensures written == |Quoted(key, slashes) + [COLON]|
    ensures Wrote(buf, base, pre + (Quoted(key, slashes) + [COLON]), was)
  {
    ghost var q := Quoted(key, slashes);
    written := SerializeString(key, buf, at, slashes);
    Joined(buf, base, pre, q, old(Contents(buf)), was);
    AppendTo(buf, base, pre + q, was, at + written, [COLON]);
    assert pre + q + [COLON] == pre + (q + [COLON]);
    written := written + 1;
  }

  /** `json_serialization_size`: the pass without a buffer counts exactly what the writing pass writes. */
  method SerializationSize(v: Json, slashes: bool) returns (size: nat)
    ensures size == |Text(v, slashes)| + 1
  {
    var written := Serialize(v, null, 0, slashes);
    size := written + 1;
  }

  /** `json_serialize_to_buffer`. */
  method SerializeToBuffer(v: Json, buf: array<byte>, slashes: bool) returns (ok: bool)
    modifies buf
    ensures ok <==> |Text(v, slashes)| < buf.Length
    ensures ok ==> buf[..|Text(v, slashes)| + 1] == Text(v, slashes) + [0]
    ensures !ok ==> buf[..] == old(buf[..])
  {
    var needed := SerializationSize(v, slashes);
    if buf.Length < needed {
      return false;
    }
    var written := Serialize(v, buf, 0, slashes);
    assert buf[..written + 1] == buf[0..0 + written] + [buf[written]];
    ok := true;
  }
}
