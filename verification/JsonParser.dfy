/** `ConfigJsonParser` of src/supervisor/api_server.cc: a cursor over the text, and the recursive
    functions of text and position that each of its methods computes. */
module JsonParser {
  import opened Basics
  import opened Utf8
  import opened Decimal
  import opened ServerConfig
  import opened JsonGrammar

  const MAX_CONFIG_JSON_BYTES := 65536
  const CONFIG_FIELD_COUNT := 13

  type JsonObject = map<Bytes, FieldValue>

  /** What one parsing step yields: nothing, or a value and the position after it. */
  datatype Parsed<+T> = Fail | Done(value: T, next: nat)

  predicate IsKnownField(name: Bytes) {
    exists f: Field :: Name(f) == name
  }

  // ---- The functions the methods compute ----

  function SkipBlank(t: Bytes, p: nat): (q: nat)
    requires p <= |t|
    ensures p <= q <= |t|
    ensures q < |t| ==> !Whitespace(t[q])
    decreases |t| - p
  {
    if p < |t| && Whitespace(t[p]) then SkipBlank(t, p + 1) else p
  }

  lemma SkipBlankTwice(t: Bytes, p: nat)
    requires p <= |t|
    ensures SkipBlank(t, SkipBlank(t, p)) == SkipBlank(t, p)
  {
  }

  /** Position after `ch`, when `ch` is the first byte that is not whitespace. */
  function ConsumeAt(t: Bytes, p: nat, ch: byte): (r: Option<nat>)
    requires p <= |t|
    ensures r.Some? ==> p < r.value <= |t|
  {
    var q := SkipBlank(t, p);
    if q < |t| && t[q] == ch then Some(q + 1) else None
  }

  function HexAt(t: Bytes, p: nat): (r: Parsed<nat>)
    ensures r.Done? ==> r.next == p + 4 <= |t| && r.value < 0x10000
  {
    if p + 4 <= |t| && FourHexDigits(t[p..p + 4]) then Done(HexValue(t[p..p + 4]), p + 4) else Fail
  }

  /** The character that a backslash-u escape starting at `p` (after its `u`) denotes. */
  function UnicodeEscapeAt(t: Bytes, p: nat): (r: Parsed<Bytes>)
    ensures r.Done? ==> p < r.next <= |t|
  {
    var first := HexAt(t, p);
    if first.Fail? then Fail
    else if High(first.value) then
      if !At(t, first.next, ESCAPE_U) then Fail
      else
        var second := HexAt(t, first.next + 2);
        if second.Fail? || !Low(second.value) then Fail
        else Done(Encode(Combine(first.value, second.value)), second.next)
    else if Low(first.value) || first.value == 0 then Fail
    else Done(Encode(first.value), first.next)
  }

  /** One character of a string body; `t[p]` is not the closing quote. */
  function CharacterAt(t: Bytes, p: nat): (r: Parsed<Bytes>)
    requires p < |t|
    ensures r.Done? ==> p < r.next <= |t|
  {
    var ch := t[p];
    if ch < 0x20 then Fail
    else if ch >= 0x80 then
      var n := SequenceLength(t, p);
      if n == 0 then Fail else Done(t[p..p + n], p + n)
    else if ch != BACKSLASH then Done([ch], p + 1)
    else if p + 1 >= |t| then Fail
    else if t[p + 1] == LETTER_U then UnicodeEscapeAt(t, p + 2)
    else
      var short := ShortMeaning(t[p + 1]);
      if short.None? then Fail else Done([short.value], p + 2)
  }

  /** The rest of a string, up to and including its closing quote. */
  function BodyAt(t: Bytes, p: nat): (r: Parsed<Bytes>)
    requires p <= |t|
    ensures r.Done? ==> p < r.next <= |t|
    decreases |t| - p
  {
    if p >= |t| then Fail
    else if t[p] == QUOTE then Done([], p + 1)
    else
      var character := CharacterAt(t, p);
      if character.Fail? then Fail
      else
        var rest := BodyAt(t, character.next);
        if rest.Fail? then Fail else Done(character.value + rest.value, rest.next)
  }

  function StringAt(t: Bytes, p: nat): (r: Parsed<Bytes>)
    requires p <= |t|
    ensures r.Done? ==> p < r.next <= |t|
  {
    var q := SkipBlank(t, p);
    if q < |t| && t[q] == QUOTE then BodyAt(t, q + 1) else Fail
  }

  function SkipDigits(t: Bytes, p: nat): (q: nat)
    requires p <= |t|
    ensures p <= q <= |t|
    ensures AllDigits(t[p..q]) && (q < |t| ==> !Digit(t[q]))
    decreases |t| - p
  {
    if p < |t| && Digit(t[p]) then
      var q := SkipDigits(t, p + 1);
      assert t[p..q] == [t[p]] + t[p + 1..q];
      q
    else p
  }

  /** End of the integer that starts at `begin`. */
  function IntegerEnd(t: Bytes, begin: nat): (r: Option<nat>)
    requires begin <= |t|
    ensures r.Some? ==> begin < r.value <= |t|
  {
    var p := if begin < |t| && t[begin] == MINUS then begin + 1 else begin;
    if p >= |t| || !Digit(t[p]) then None
    else if t[p] == 0x30 then
      if p + 1 < |t| && Digit(t[p + 1]) then None else Some(p + 1)
    else Some(SkipDigits(t, p + 1))
  }

  function IntegerAt(t: Bytes, p: nat): (r: Parsed<int32>)
    requires p <= |t|
    ensures r.Done? ==> p < r.next <= |t|
  {
    var begin := SkipBlank(t, p);
    var end := IntegerEnd(t, begin);
    if end.None? then Fail
    else
      var n := FromChars(t[begin..end.value]);
      if n.None? then Fail else Done(n.value, end.value)
  }

  function ValueAt(t: Bytes, p: nat): (r: Parsed<FieldValue>)
    requires p <= |t|
    ensures r.Done? ==> p < r.next <= |t|
  {
    var q := SkipBlank(t, p);
    if q < |t| && t[q] == QUOTE then
      var s := BodyAt(t, q + 1);
      if s.Fail? then Fail else Done(String(s.value), s.next)
    else
      var n := IntegerAt(t, p);
      if n.Fail? then Fail else Done(Integer(n.value), n.next)
  }

  /** A known field name, a colon and a value. */
  function MemberAt(t: Bytes, p: nat): (r: Parsed<(Bytes, FieldValue)>)
    requires p <= |t|
    ensures r.Done? ==> p < r.next <= |t|
  {
    var key := StringAt(t, p);
    if key.Fail? || !IsKnownField(key.value) then Fail
    else
      var colon := ConsumeAt(t, key.next, COLON);
      if colon.None? then Fail
      else
        var value := ValueAt(t, colon.value);
        if value.Fail? then Fail else Done((key.value, value.value), value.next)
  }

  /** The members from `p` on, added to those already read. */
  function MembersAt(t: Bytes, p: nat, fields: JsonObject): (r: Parsed<JsonObject>)
    requires p <= |t|
    ensures r.Done? ==> p < r.next <= |t|
    decreases |t| - p
  {
    var member := MemberAt(t, p);
    if member.Fail? || member.value.0 in fields then Fail
    else
      var extended := fields[member.value.0 := member.value.1];
      var brace := ConsumeAt(t, member.next, RBRACE);
      if brace.Some? then Done(extended, brace.value)
      else
        var comma := ConsumeAt(t, member.next, COMMA);
        if comma.None? then Fail else MembersAt(t, comma.value, extended)
  }

  function ObjectAt(t: Bytes, p: nat): (r: Parsed<JsonObject>)
    requires p <= |t|
    ensures r.Done? ==> p < r.next <= |t|
  {
    var open := ConsumeAt(t, p, LBRACE);
    if open.None? then Fail
    else
      var brace := ConsumeAt(t, open.value, RBRACE);
      if brace.Some? then Done(map[], brace.value) else MembersAt(t, open.value, map[])
  }

  predicate HasAllFields(fields: JsonObject) {
    forall f: Field :: Name(f) in fields && (fields[Name(f)].Integer? <==> IsInteger(f))
  }

  /** `BuildConfig`: thirteen members, each field present with its kind. */
  function BuildConfig(fields: JsonObject): Option<ServerConfig> {
    if |fields| != CONFIG_FIELD_COUNT || !HasAllFields(fields) then None
    else Some(FromFields(f => if Name(f) in fields then fields[Name(f)] else String([])))
  }

  function Parse(t: Bytes): Option<ServerConfig> {
    if |t| > MAX_CONFIG_JSON_BYTES then None
    else
      var parsed := ObjectAt(t, 0);
      if parsed.Fail? || SkipBlank(t, parsed.next) != |t| then None
      else BuildConfig(parsed.value)
  }

  // ---- The parser itself ----

  class ConfigJsonParser {
    const input: Bytes
    var position: nat

    ghost predicate Valid()
      reads this
    {
      position <= |input|
    }

    constructor (input: Bytes)
      ensures Valid() && this.input == input && position == 0
    {
      this.input := input;
      position := 0;
    }

    method ParseConfig() returns (config: Option<ServerConfig>)
      requires Valid() && position == 0
      modifies this
      ensures Valid()
      ensures config == Parse(input)
    {
      if |input| > MAX_CONFIG_JSON_BYTES {
        return None;
      }
      var fields := ParseObject();
      if fields.None? {
        return None;
      }
      SkipWhitespace();
      if position != |input| {
        return None;
      }
      return BuildConfig(fields.value);
    }

    method SkipWhitespace()
      requires Valid()
      modifies this
      ensures Valid() && position == SkipBlank(input, old(position))
      ensures forall i :: old(position) <= i < position ==> input[i] in {0x20, 0x09, 0x0A, 0x0D}
      ensures position < |input| ==> input[position] !in {0x20, 0x09, 0x0A, 0x0D}
    {
      while position < |input| && Whitespace(input[position])
        invariant Valid() && SkipBlank(input, position) == SkipBlank(input, old(position))
        invariant old(position) <= position
        invariant forall i :: old(position) <= i < position ==> input[i] in {0x20, 0x09, 0x0A, 0x0D}
        decreases |input| - position
      {
        position := position + 1;
      }
    }

    method Consume(expected: byte) returns (found: bool)
      requires Valid()
      modifies this
      ensures Valid()
      ensures var r := ConsumeAt(input, old(position), expected);
              found == r.Some? && position == if found then r.value else SkipBlank(input, old(position))
    {
      SkipWhitespace();
      if position >= |input| || input[position] != expected {
        return false;
      }
      position := position + 1;
      return true;
    }

    method ParseHexCodeUnit() returns (unit: Option<nat>)
      requires Valid()
      modifies this
      ensures Valid()
      ensures var r := HexAt(input, old(position));
              if r.Done? then unit == Some(r.value) && position == r.next else unit.None?
    {
      if position + 4 > |input| {
        return None;
      }
      ghost var begin := position;
      ghost var digits := input[begin..begin + 4];
      var value: nat := 0;
      var index := 0;
      while index < 4
        invariant 0 <= index <= 4 && position == begin + index
        invariant forall k :: 0 <= k < index ==> HexDigit(digits[k]) >= 0
        invariant index == 1 ==> value == HexDigit(digits[0])
        invariant index == 2 ==> value == HexDigit(digits[0]) * 16 + HexDigit(digits[1])
        invariant index == 3 ==>
                    value == (HexDigit(digits[0]) * 16 + HexDigit(digits[1])) * 16 + HexDigit(digits[2])
        invariant index == 4 ==> FourHexDigits(digits) && value == HexValue(digits)
        invariant index == 0 ==> value == 0
      {
        var digit := HexDigit(input[position]);
        assert input[position] == digits[index];
        position := position + 1;
        if digit < 0 {
          return None;
        }
        value := value * 16 + digit;
        index := index + 1;
      }
      return Some(value);
    }

    /** The part of `ParseString` after a backslash and its `u`. */
    method ParseUnicodeEscape() returns (character: Option<Bytes>)
      requires Valid()
      modifies this
      ensures Valid()
      ensures var r := UnicodeEscapeAt(input, old(position));
              if r.Done? then character == Some(r.value) && position == r.next else character.None?
    {
      hide HexAt, Encode, HexValue, FourHexDigits;
      var unit := ParseHexCodeUnit();
      if unit.None? {
        return None;
      }
      var codePoint := unit.value;
      if High(codePoint) {
        if position + 2 > |input| || input[position] != BACKSLASH || input[position + 1] != LETTER_U {
          return None;
        }
        position := position + 2;
        var low := ParseHexCodeUnit();
        if low.None? || !Low(low.value) {
          return None;
        }
        codePoint := Combine(codePoint, low.value);
      } else if Low(codePoint) {
        return None;
      }
      if codePoint == 0 {
        return None;
      }
      return Some(Encode(codePoint));
    }

    /** One turn of the loop of `ParseString`. */
    method ParseCharacter() returns (character: Option<Bytes>)
      requires Valid() && position < |input| && input[position] != QUOTE
      modifies this
      ensures Valid()
      ensures var r := CharacterAt(input, old(position));
              if r.Done? then character == Some(r.value) && position == r.next else character.None?
    {
      hide SequenceLength, MultiByte, UnicodeEscapeAt, ShortMeaning;
      var ch := input[position];
      if ch < 0x20 {
        return None;
      }
      if ch >= 0x80 {
        var length := ValidUtf8SequenceLength(input, position);
        if length == 0 {
          return None;
        }
        character := Some(input[position..position + length]);
        position := position + length;
        return;
      }
      position := position + 1;
      if ch != BACKSLASH {
        return Some([ch]);
      }
      if position >= |input| {
        return None;
      }
      var letter := input[position];
      position := position + 1;
      if letter == LETTER_U {
        character := ParseUnicodeEscape();
      } else {
        var short := ShortMeaning(letter);
        character := if short.None? then None else Some([short.value]);
      }
    }

    method ParseString() returns (s: Option<Bytes>)
      requires Valid()
      modifies this
      ensures Valid()
      ensures var r := StringAt(input, old(position));
              if r.Done? then s == Some(r.value) && position == r.next else s.None?
    {
      SkipWhitespace();
      if position >= |input| || input[position] != QUOTE {
        return None;
      }
      position := position + 1;
      ghost var begin := position;
      var value: Bytes := [];
      ReadNothing(BodyAt(input, begin));
      while position < |input|
        invariant Valid()
        invariant Continues(BodyAt(input, begin), value, BodyAt(input, position))
        decreases |input| - position
      {
        if input[position] == QUOTE {
          position := position + 1;
          assert value + [] == value;
          return Some(value);
        }
        ghost var here := position;
        var character := ParseCharacter();
        if character.None? {
          return None;
        }
        ReadMore(BodyAt(input, begin), value, character.value, BodyAt(input, here), BodyAt(input, position));
        value := value + character.value;
      }
      return None;
    }

    method SkipDigitRun()
      requires Valid()
      modifies this
      ensures Valid() && position == SkipDigits(input, old(position))
    {
      while position < |input| && Digit(input[position])
        invariant Valid() && SkipDigits(input, position) == SkipDigits(input, old(position))
        decreases |input| - position
      {
        position := position + 1;
      }
    }

    /** Moves over the literal of `ParseInteger`. */
    method ScanInteger() returns (found: bool)
      requires Valid()
      modifies this
      ensures Valid()
      ensures var end := IntegerEnd(input, old(position));
              found == end.Some? && (found ==> position == end.value)
    {
      if position < |input| && input[position] == MINUS {
        position := position + 1;
      }
      if position >= |input| || !Digit(input[position]) {
        return false;
      }
      if input[position] == 0x30 {
        position := position + 1;
        return !(position < |input| && Digit(input[position]));
      }
      position := position + 1;
      SkipDigitRun();
      return true;
    }

    method ParseInteger() returns (n: Option<int32>)
      requires Valid()
      modifies this
      ensures Valid()
      ensures var r := IntegerAt(input, old(position));
              if r.Done? then n == Some(r.value) && position == r.next else n.None?
    {
      SkipWhitespace();
      var begin := position;
      var found := ScanInteger();
      if !found {
        return None;
      }
      n := FromChars(input[begin..position]);
    }

    /** The value of a member, whose kind its first byte tells. */
    method ParseValue() returns (value: Option<FieldValue>)
      requires Valid()
      modifies this
      ensures Valid()
      ensures var r := ValueAt(input, old(position));
              if r.Done? then value == Some(r.value) && position == r.next else value.None?
    {
      SkipWhitespace();
      SkipBlankTwice(input, old(position));
      if position < |input| && input[position] == QUOTE {
        var s := ParseString();
        value := if s.None? then None else Some(String(s.value));
      } else {
        var n := ParseInteger();
        value := if n.None? then None else Some(Integer(n.value));
      }
    }

    /** One turn of the loop of `ParseObject`, up to the duplicate check. */
    method ParseMember() returns (member: Option<(Bytes, FieldValue)>)
      requires Valid()
      modifies this
      ensures Valid()
      ensures var r := MemberAt(input, old(position));
              if r.Done? then member == Some(r.value) && position == r.next else member.None?
    {
      var key := ParseString();
      if key.None? || !IsKnownField(key.value) {
        return None;
      }
      var colon := Consume(COLON);
      if !colon {
        return None;
      }
      var value := ParseValue();
      if value.None? {
        return None;
      }
      return Some((key.value, value.value));
    }

    method ParseObject() returns (fields: Option<JsonObject>)
      requires Valid()
      modifies this
      ensures Valid()
      ensures var r := ObjectAt(input, old(position));
              if r.Done? then fields == Some(r.value) && position == r.next else fields.None?
    {
      var open := Consume(LBRACE);
      if !open {
        return None;
      }
      ghost var begin := position;
      SkipWhitespace();
      AfterBlank(input, begin, RBRACE);
      var empty := Consume(RBRACE);
      if empty {
        return Some(map[]);
      }
      assert MemberAt(input, position) == MemberAt(input, begin);
      fields := ParseMembers();
    }

    /** The loop of `ParseObject`. */
    method ParseMembers() returns (fields: Option<JsonObject>)
      requires Valid()
      modifies this
      ensures Valid()
      ensures var r := MembersAt(input, old(position), map[]);
              if r.Done? then fields == Some(r.value) && position == r.next else fields.None?
    {
      var read: JsonObject := map[];
      while true
        invariant Valid()
        invariant MembersAt(input, position, read) == MembersAt(input, old(position), map[])
        decreases |input| - position
      {
        var member := ParseMember();
        if member.None? || member.value.0 in read {
          return None;
        }
        read := read[member.value.0 := member.value.1];
        ghost var next := position;
        SkipWhitespace();
        AfterBlank(input, next, RBRACE);
        var closed := Consume(RBRACE);
        if closed {
          return Some(read);
        }
        AfterBlank(input, position, COMMA);
        AfterBlank(input, next, COMMA);
        var comma := Consume(COMMA);
        if !comma {
          return None;
        }
      }
    }
  }

  /** `whole` is what comes of `rest` once `front` has been read. */
  ghost predicate Continues(whole: Parsed<Bytes>, front: Bytes, rest: Parsed<Bytes>) {
    whole == if rest.Fail? then Fail else Done(front + rest.value, rest.next)
  }

  lemma ReadNothing(whole: Parsed<Bytes>)
    ensures Continues(whole, [], whole)
  {
    assert whole.Done? ==> [] + whole.value == whole.value;
  }

  lemma ReadMore(whole: Parsed<Bytes>, front: Bytes, more: Bytes, before: Parsed<Bytes>, rest: Parsed<Bytes>)
    requires Continues(whole, front, before) && Continues(before, more, rest)
    ensures Continues(whole, front + more, rest)
  {
    assert rest.Done? ==> front + (more + rest.value) == front + more + rest.value;
  }

  /** Leading whitespace may be skipped beforehand. */
  lemma AfterBlank(t: Bytes, p: nat, ch: byte)
    requires p <= |t|
    ensures SkipBlank(t, SkipBlank(t, p)) == SkipBlank(t, p)
    ensures ConsumeAt(t, SkipBlank(t, p), ch) == ConsumeAt(t, p, ch)
    ensures StringAt(t, SkipBlank(t, p)) == StringAt(t, p)
  {
    SkipBlankTwice(t, p);
  }
}
