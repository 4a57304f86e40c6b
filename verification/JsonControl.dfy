/** The parser as the C code runs it, advancing a cursor over the text. */
module JsonControl {
  import opened Common
  import opened Bytes
  import opened Json

  lemma PrependTwice(a: seq<byte>, b: seq<byte>, r: Option<seq<byte>>)
    ensures Prepend(a, Prepend(b, r)) == Prepend(a + b, r)
  {
    if r.Some? {
      assert a + (b + r.value) == a + b + r.value;
    }
  }

  /** The outcome `r`, with the cursor at `pos`, is the specified one. */
  predicate Agrees(spec: Parsed, r: Option<Json>, pos: nat) {
    if spec.None? then r.None? else r == Some(spec.value.0) && pos == spec.value.1
  }

  /** Likewise for strings. */
  predicate Decodes(spec: Decoded, r: Option<seq<byte>>, pos: nat) {
    if spec.None? then r.None? else r == Some(spec.value.0) && pos == spec.value.1
  }

  class Reader {
    const text: seq<byte>
    var pos: nat

    constructor (text: seq<byte>)
      ensures this.text == text && pos == 0
    {
      this.text := text;
      pos := 0;
    }

    method SkipWhitespaces()
      requires pos <= |text|
      modifies this
      ensures pos == SkipSpace(text, old(pos))
    {
      while IsSpace(At(text, pos))
        invariant pos <= |text| && SkipSpace(text, pos) == SkipSpace(text, old(pos))
        decreases |text| - pos
      {
        pos := pos + 1;
      }
    }

    /** Behind the opening quote. */
    method SkipQuotes() returns (ok: bool)
      requires pos <= |text|
      modifies this
      ensures pos <= |text| && ok == Scan(text, old(pos)).Some?
      ensures ok ==> pos == Scan(text, old(pos)).value
    {
      while At(text, pos) != QUOTE
        invariant pos <= |text| && Scan(text, pos) == Scan(text, old(pos))
        decreases |text| - pos
      {
        if At(text, pos) == 0 {
          return false;
        } else if At(text, pos) == BACKSLASH {
          if At(text, pos + 1) == 0 {
            return false;
          }
          pos := pos + 1;
        }
        pos := pos + 1;
      }
      pos := pos + 1;
      ok := true;
    }

    /** `parse_utf16`, behind the `u`. */
    method ParseUtf16(i: nat, ghost end: nat) returns (ok: bool, bytes: seq<byte>, next: nat)
      requires i <= |text|
      ensures ok ==> i < next <= |text| && ProcessUtf16(text, i, end) == Prepend(bytes, Process(text, next, end))
      ensures !ok ==> ProcessUtf16(text, i, end) == None
    {
      bytes, next := [], i;
      var lead := Hex4(text, i);
      if lead.None? {
        return false, [], i;
      }
      if lead.value < 0xD800 || lead.value > 0xDFFF {
        return true, Utf8(lead.value), i + 4;
      }
      if lead.value > 0xDBFF || At(text, i + 4) != BACKSLASH || At(text, i + 5) != 117 {
        return false, [], i;
      }
      var trail := Hex4(text, i + 6);
      if trail.None? || trail.value < 0xDC00 || trail.value > 0xDFFF {
        return false, [], i;
      }
      return true, Utf8(0x1_0000 + 0x400 * (lead.value - 0xD800) + (trail.value - 0xDC00)), i + 10;
    }

    /** One character of a string. */
    method ProcessOne(i: nat, end: nat) returns (ok: bool, bytes: seq<byte>, next: nat)
      requires i < end && i < |text| && text[i] != 0
      ensures ok ==> i < next <= |text| && Process(text, i, end) == Prepend(bytes, Process(text, next, end))
      ensures !ok ==> Process(text, i, end) == None
    {
      if text[i] == BACKSLASH {
        if At(text, i + 1) == 117 {
          ok, bytes, next := ParseUtf16(i + 2, end);
          return;
        }
        var e := Unescape(At(text, i + 1));
        if e.None? {
          return false, [], i;
        }
        return true, [e.value], i + 2;
      } else if text[i] < 32 {
        return false, [], i;
      }
      return true, [text[i]], i + 1;
    }

    /** `process_string`. */
    method ProcessString(from: nat, end: nat) returns (r: Option<seq<byte>>)
      requires from <= |text|
      ensures r == Process(text, from, end)
    {
      var i, out := from, [];
      assert Process(text, from, end) == Prepend([], Process(text, from, end)) by {
        if Process(text, from, end).Some? {
          assert [] + Process(text, from, end).value == Process(text, from, end).value;
        }
      }
      while At(text, i) != 0 && i < end
        invariant i <= |text| && Process(text, from, end) == Prepend(out, Process(text, i, end))
        decreases |text| - i
      {
        var ok, bytes, next := ProcessOne(i, end);
        if !ok {
          return None;
        }
        PrependTwice(out, bytes, Process(text, next, end));
        i, out := next, out + bytes;
      }
      assert out + [] == out;
      r := Some(out);
    }

    /** `get_quoted_string`. */
    method GetQuotedString() returns (r: Option<seq<byte>>)
      requires pos <= |text|
      modifies this
      ensures pos <= |text| && Decodes(ParseQuoted(text, old(pos)), r, pos)
    {
      var start := pos;
      if At(text, pos) != QUOTE {
        return None;
      }
      pos := pos + 1;
      var ok := SkipQuotes();
      if !ok {
        return None;
      }
      r := ProcessString(start + 1, pos - 1);
    }

    /** `strncmp` with a token. */
    method CompareToken(token: seq<byte>) returns (same: bool)
      requires pos <= |text| && 0 !in token
      ensures same == Matches(text, pos, token, 0)
    {
      var k := 0;
      while k < |token|
        invariant 0 <= k <= |token| && Matches(text, pos + k, token, k) == Matches(text, pos, token, 0)
      {
        if At(text, pos + k) != token[k] {
          return false;
        }
        k := k + 1;
      }
      same := true;
    }

    method ParseTokenValue(token: seq<byte>, v: Json) returns (r: Option<Json>)
      requires pos <= |text| && 0 !in token
      modifies this
      ensures pos <= |text| && Agrees(ParseToken(text, old(pos), token, v), r, pos)
      ensures r.None? ==> pos == old(pos)
    {
      var same := CompareToken(token);
      if same {
        pos := pos + |token|;
        return Some(v);
      }
      r := None;
    }

    method ParseBooleanValue() returns (r: Option<Json>)
      requires pos <= |text|
      modifies this
      ensures pos <= |text| && Agrees(ParseBoolean(text, old(pos)), r, pos)
    {
      r := ParseTokenValue(TRUE_TEXT, Bool(true));
      if r.None? {
        r := ParseTokenValue(FALSE_TEXT, Bool(false));
      }
    }

    /** The digits `strtod` consumes. */
    method Convert(start: nat) returns (end: nat, v: int)
      requires start <= |text|
      ensures end == Run(text, start) && v == DigitsValue(text, start, end)
    {
      end, v := start, 0;
      while IsDigit(At(text, end))
        invariant start <= end <= |text| && Run(text, end) == Run(text, start) && v == DigitsValue(text, start, end)
        decreases |text| - end
      {
        v := 10 * v + (text[end] as int - 48);
        end := end + 1;
      }
    }

    method ParseNumberValue() returns (r: Option<Json>)
      requires pos < |text|
      modifies this
      ensures pos <= |text| && Agrees(ParseNumber(text, old(pos)), r, pos)
    {
      var negative := text[pos] == MINUS;
      var start := if negative then pos + 1 else pos;
      var end, v := Convert(start);
      if !Converts(text, start) {
        return Some(Number(0));
      }
      if end == start || ReadsOn(text, start, end) {
        return None;
      }
      if end > start + 1 && text[start] == 48 {
        return None;
      }
      pos := end;
      r := Some(Number(if negative then -v else v));
    }

    method ParseScalarValue() returns (r: Option<Json>)
      requires pos <= |text|
      modifies this
      ensures pos <= |text| && Agrees(ParseScalar(text, old(pos)), r, pos)
    {
      var c := At(text, pos);
      if c == QUOTE {
        var q := GetQuotedString();
        r := if q.None? then None else Some(Str(q.value));
      } else if c == 102 || c == 116 {
        r := ParseBooleanValue();
      } else if c == MINUS || IsDigit(c) {
        r := ParseNumberValue();
      } else if c == 110 {
        r := ParseTokenValue(NULL_TEXT, Null);
      } else {
        r := None;
      }
    }

    /** `parse_value`. */
    method ParseNext(nesting: nat) returns (r: Option<Json>)
      requires pos <= |text|
      modifies this
      ensures pos <= |text| && Agrees(ParseValue(text, old(pos), nesting), r, pos)
      decreases |text| - pos, 1
    {
      if nesting > MAX_NESTING {
        return None;
      }
      SkipWhitespaces();
      ghost var start := pos;
      var c := At(text, pos);
      if c == OPEN_OBJECT {
        pos := pos + 1;
        r := ParseObjectValue(nesting + 1);
      } else if c == OPEN_ARRAY {
        pos := pos + 1;
        r := ParseArrayValue(nesting + 1);
      } else {
        r := ParseScalarValue();
      }
      assert Agrees(ParseAt(text, start, nesting), r, pos);
    }

    /** One item and what follows it: whether the loop goes on. */
    method ParseItem(nesting: nat, ghost items: seq<Json>) returns (v: Option<Json>, more: bool)
      requires pos <= |text| && At(text, pos) != 0
      modifies this
      ensures pos <= |text| && (v.Some? ==> old(pos) <= pos)
      ensures v.None? ==> ArrayLoop(text, old(pos), nesting, items) == None
      ensures v.Some? && more ==>
                && pos > old(pos)
                && ArrayLoop(text, old(pos), nesting, items) == ArrayLoop(text, pos, nesting, items + [v.value])
      ensures v.Some? && !more ==>
                && !IsSpace(At(text, pos))
                && ArrayLoop(text, old(pos), nesting, items) == ArrayEnd(text, pos, items + [v.value])
      decreases |text| - pos, 2
    {
      v := ParseNext(nesting);
      more := false;
      if v.None? {
        return;
      }
      SkipStops(text, pos);
      SkipWhitespaces();
      if At(text, pos) != COMMA {
        return;
      }
      pos := pos + 1;
      SkipStops(text, pos);
      SkipWhitespaces();
      more := At(text, pos) != CLOSE_ARRAY;
    }

    /** `parse_array_value`, behind the bracket. */
    method ParseArrayValue(nesting: nat) returns (r: Option<Json>)
      requires pos <= |text|
      modifies this
      ensures pos <= |text| && Agrees(ParseArray(text, old(pos), nesting), r, pos)
      decreases |text| - pos, 3
    {
      SkipWhitespaces();
      if At(text, pos) == CLOSE_ARRAY {
        pos := pos + 1;
        return Some(Arr([]));
      }
      ghost var spec := ArrayLoop(text, pos, nesting, []);
      var items: seq<Json> := [];
      var more := true;
      while more && At(text, pos) != 0
        invariant old(pos) <= pos <= |text| && (!more ==> !IsSpace(At(text, pos)))
        invariant spec == if more then ArrayLoop(text, pos, nesting, items) else ArrayEnd(text, pos, items)
        decreases |text| - pos, more
      {
        var v;
        v, more := ParseItem(nesting, items);
        if v.None? {
          return None;
        }
        items := items + [v.value];
      }
      SkipWhitespaces();
      if At(text, pos) != CLOSE_ARRAY {
        return None;
      }
      pos := pos + 1;
      r := Some(Arr(items));
    }

    /** A key and its colon. */
    method ReadKey() returns (key: Option<seq<byte>>)
      requires pos <= |text|
      modifies this
      ensures pos <= |text| && Decodes(ParseKey(text, old(pos)), key, pos)
    {
      key := GetQuotedString();
      if key.None? || 0 in key.value {
        return None;
      }
      SkipWhitespaces();
      if At(text, pos) != COLON {
        return None;
      }
      pos := pos + 1;
    }

    /** A value behind its key, and what follows it. */
    method ParseMember(nesting: nat, members: seq<Member>, key: seq<byte>) returns (v: Option<Json>, more: bool)
      requires pos <= |text|
      modifies this
      ensures pos <= |text| && (v.Some? ==> old(pos) <= pos)
      ensures v.None? ==> MemberAfterKey(text, old(pos), nesting, members, key) == None
      ensures v.Some? && more ==>
                (MemberAfterKey(text, old(pos), nesting, members, key)
                 == ObjectLoop(text, pos, nesting, members + [Member(key, v.value)]))
      ensures v.Some? && !more ==>
                (!IsSpace(At(text, pos)) && MemberAfterKey(text, old(pos), nesting, members, key)
                                         == ObjectEnd(text, pos, members + [Member(key, v.value)]))
      decreases |text| - pos, 2
    {
      v := ParseNext(nesting);
      more := false;
      if v.None? || HasKey(members, key) {
        return None, false;
      }
      SkipStops(text, pos);
      SkipWhitespaces();
      if At(text, pos) != COMMA {
        return;
      }
      pos := pos + 1;
      SkipStops(text, pos);
      SkipWhitespaces();
      more := At(text, pos) != CLOSE_OBJECT;
    }

    /** `parse_object_value`, behind the brace. */
    method ParseObjectValue(nesting: nat) returns (r: Option<Json>)
      requires pos <= |text|
      modifies this
      ensures pos <= |text| && Agrees(ParseObject(text, old(pos), nesting), r, pos)
      decreases |text| - pos, 3
    {
      SkipWhitespaces();
      if At(text, pos) == CLOSE_OBJECT {
        pos := pos + 1;
        return Some(Obj([]));
      }
      ghost var spec := ObjectLoop(text, pos, nesting, []);
      var members: seq<Member> := [];
      var more := true;
      while more && At(text, pos) != 0
        invariant old(pos) <= pos <= |text| && (!more ==> !IsSpace(At(text, pos)))
        invariant spec == if more then ObjectLoop(text, pos, nesting, members) else ObjectEnd(text, pos, members)
        decreases |text| - pos, more
      {
        var key := ReadKey();
        if key.None? {
          return None;
        }
        var v;
        v, more := ParseMember(nesting, members, key.value);
        if v.None? {
          return None;
        }
        members := members + [Member(key.value, v.value)];
      }
      SkipWhitespaces();
      if At(text, pos) != CLOSE_OBJECT {
        return None;
      }
      pos := pos + 1;
      r := Some(Obj(members));
    }
  }

  lemma {:induction false} SkipStops(s: seq<byte>, i: nat)
    requires i <= |s|
    ensures !IsSpace(At(s, SkipSpace(s, i)))
    decreases |s| - i
  {
    if IsSpace(At(s, i)) {
      SkipStops(s, i + 1);
    }
  }

  /** `json_parse_string`. */
  method ParseText(text: seq<byte>) returns (r: Option<Json>)
    ensures r == Parse(text)
  {
    var reader := new Reader(text);
    if |text| >= 3 {
      var mark := reader.CompareToken(BOM);
      if mark {
        reader.pos := 3;
      }
    }
    r := reader.ParseNext(0);
  }
}
