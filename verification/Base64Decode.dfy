/** The base64 decoder. */
module Base64Decode {
  /** The value of a digit; -1 for other characters. */
  function ValueOf(c: char): (v: int)
    ensures -1 <= v < 64
  {
    if 'A' <= c <= 'Z' then c as int - 'A' as int
    else if 'a' <= c <= 'z' then c as int - 'a' as int + 26
    else if '0' <= c <= '9' then c as int - '0' as int + 52
    else if c == '+' then 62
    else if c == '/' then 63
    else -1
  }

  /** White space. */
  predicate Blank(c: char) { 9 <= c as int <= 13 || c == ' ' }

  predicate Significant(c: char) { ValueOf(c) >= 0 || c == '=' }

  predicate Refused(c: char, strict: bool) { !Significant(c) && (strict || !Blank(c)) }

  predicate AllBlank(text: seq<char>) { forall i :: 0 <= i < |text| ==> Blank(text[i]) }

  /** The values of the significant characters, padding counted as 0. */
  function Values(text: seq<char>): (v: seq<int>)
    ensures |v| <= |text| && forall i :: 0 <= i < |v| ==> 0 <= v[i] < 64
  {
    if text == [] then [] else
      var rest, c := Values(text[..|text| - 1]), text[|text| - 1];
      if !Significant(c) then rest else rest + [if c == '=' then 0 else ValueOf(c)]
  }

  /** The number of padding characters. */
  function Pads(text: seq<char>): (n: nat) {
    if text == [] then 0 else Pads(text[..|text| - 1]) + if text[|text| - 1] == '=' then 1 else 0
  }

  /** The bytes of complete groups of four values. */
  function Unpack(v: seq<int>): (d: seq<int>)
    requires |v| % 4 == 0
    ensures |d| == |v| / 4 * 3
  {
    if v == [] then [] else
      var k := |v| - 4;
      Unpack(v[..k]) + Three(((v[k] * 64 + v[k + 1]) * 64 + v[k + 2]) * 64 + v[k + 3])
  }

  function Three(value: int): (t: seq<int>)
    ensures |t| == 3
  {
    [value / 65536 % 256, value / 256 % 256, value % 256]
  }

  function Zeros(n: nat): (z: seq<int>)
    ensures |z| == n
  {
    seq(n, _ => 0)
  }

  /** How many groups the decoder goes through: white space after a complete last group
      makes it start one more. */
  function GroupCount(text: seq<char>): nat {
    (|Values(text)| + 3) / 4 + if |Values(text)| % 4 == 0 && text != [] && !Significant(text[|text| - 1]) then 1 else 0
  }

  function Least(a: int, b: int): int { if a < b then a else b }

  /** The result of decoding: the bytes written, of which `length` are kept. */
  datatype Decoded = Invalid(c: char, at: nat) | Bytes(buffer: seq<int>, length: int)

  function Reading(text: seq<char>): (r: Decoded) {
    var v, n := Values(text), GroupCount(text);
    Bytes(Unpack(v + Zeros(4 * n - |v|)), 3 * n - Least(Least(2, Pads(text)) + 4 * n - |v|, (|text| + 3) / 4 * 3))
  }

  // ----- the decoder

  function Shifted(v: seq<int>): int {
    if v == [] then 0 else Shifted(v[..|v| - 1]) * 64 + v[|v| - 1]
  }

  /** `i` values of the group `g` have been read, the last ones made up at the end of the text. */
  ghost predicate Reads(text: seq<char>, strict: bool, data: nat, g: nat, i: nat, value: int, cut: int) {
    && data <= |text| && (forall j :: 0 <= j < data ==> !Refused(text[j], strict))
    && var v := Values(text[..data]);
    && 4 * g <= |v| <= 4 * g + i && (|v| < 4 * g + i ==> data == |text|)
    && value == Shifted(v[4 * g..] + Zeros(4 * g + i - |v|))
    && cut == Least(2, Pads(text[..data])) + 4 * g + i - |v|
  }

  lemma NextChar(text: seq<char>, data: nat)
    requires data < |text|
    ensures var c, v := text[data], Values(text[..data]);
            Values(text[..data + 1]) == if !Significant(c) then v else v + [if c == '=' then 0 else ValueOf(c)]
    ensures Pads(text[..data + 1]) == Pads(text[..data]) + if text[data] == '=' then 1 else 0
  {
    assert text[..data + 1][..data] == text[..data];
  }

  /** A significant character counts for `x`. */
  lemma ReadValue(text: seq<char>, strict: bool, data: nat, g: nat, i: nat, value: int, cut: int, x: int, cut': int)
    requires Reads(text, strict, data, g, i, value, cut) && data < |text| && Significant(text[data])
    requires x == if text[data] == '=' then 0 else ValueOf(text[data])
    requires cut' == if text[data] == '=' && cut < 2 then cut + 1 else cut
    ensures Reads(text, strict, data + 1, g, i + 1, value * 64 + x, cut')
  {
    NextChar(text, data);
    var v := Values(text[..data]);
    assert v[4 * g..] + Zeros(0) == v[4 * g..];
    assert (v + [x])[4 * g..] + Zeros(0) == v[4 * g..] + [x];
    assert (v[4 * g..] + [x])[..i] == v[4 * g..];
  }

  lemma ReadBlank(text: seq<char>, strict: bool, data: nat, g: nat, i: nat, value: int, cut: int)
    requires Reads(text, strict, data, g, i, value, cut) && data < |text|
    requires !Significant(text[data]) && !Refused(text[data], strict)
    ensures Reads(text, strict, data + 1, g, i, value, cut)
  {
    NextChar(text, data);
  }

  lemma ReadPast(text: seq<char>, strict: bool, g: nat, i: nat, value: int, cut: int)
    requires Reads(text, strict, |text|, g, i, value, cut)
    ensures Reads(text, strict, |text|, g, i + 1, value * 64, cut + 1)
  {
    var v := Values(text[..|text|]);
    var w := v[4 * g..] + Zeros(4 * g + i + 1 - |v|);
    assert w[..|w| - 1] == v[4 * g..] + Zeros(4 * g + i - |v|);
  }

  /** Read the next four values. */
  method ReadGroup(text: seq<char>, strict: bool, data: nat, cut: int, ghost g: nat)
    returns (refused: bool, data': nat, value: int, cut': int)
    requires data < |text| && Reads(text, strict, data, g, 0, 0, cut)
    ensures data < data' <= |text|
    ensures if refused then Stuck(text, strict, data') else Reads(text, strict, data', g, 4, value, cut') && LastCounts(text, data', g, 4)
  {
    refused, data', value, cut' := false, data, 0, cut;
    var i := 0;
    while i < 4 && !refused
      invariant 0 <= i <= 4 && data <= data' <= |text| && (i > 0 || refused ==> data < data')
      invariant if refused then Stuck(text, strict, data') else Reads(text, strict, data', g, i, value, cut') && LastCounts(text, data', g, i)
      decreases |text| - data', 4 - i
    {
      refused, data', i, value, cut' := ReadOne(text, strict, data', i, value, cut', g);
    }
  }

  /** The last character read is the first one that is refused. */
  ghost predicate Stuck(text: seq<char>, strict: bool, data: nat) {
    && 0 < data <= |text| && Refused(text[data - 1], strict)
    && forall j :: 0 <= j < data - 1 ==> !Refused(text[j], strict)
  }

  /** A complete group ends with a significant character. */
  ghost predicate LastCounts(text: seq<char>, data: nat, g: nat, i: nat)
    requires data <= |text|
  {
    i == 4 && |Values(text[..data])| == 4 * g + 4 ==> data > 0 && Significant(text[data - 1])
  }

  /** Read one character, or make up a value at the end of the text. */
  method ReadOne(text: seq<char>, strict: bool, data: nat, i: nat, value: int, cut: int, ghost g: nat)
    returns (refused: bool, data': nat, i': nat, value': int, cut': int)
    requires i < 4 && Reads(text, strict, data, g, i, value, cut)
    ensures data <= data' <= |text| && i <= i' <= 4 && (data' > data || (data == |text| && i' == i + 1))
    ensures if refused then data' == data + 1 && Stuck(text, strict, data')
            else Reads(text, strict, data', g, i', value', cut') && LastCounts(text, data', g, i')
  {
    refused, data', i', value', cut' := false, data, i, value, cut;
    if data < |text| {
      var c := text[data];
      data' := data + 1;
      if ValueOf(c) >= 0 {
        value' := value * 64 + ValueOf(c);
        ReadValue(text, strict, data, g, i, value, cut, ValueOf(c), cut);
      } else if c == '=' {
        value' := value * 64;
        if cut < 2 {
          cut' := cut + 1;
        }
        ReadValue(text, strict, data, g, i, value, cut, 0, cut');
      } else {
        if strict || !Blank(c) {
          return true, data', i, value, cut;
        }
        ReadBlank(text, strict, data, g, i, value, cut);
        return false, data', i, value, cut;
      }
    } else {
      ReadPast(text, strict, g, i, value, cut);
      value' := value * 64;
      cut' := cut + 1;
    }
    i' := i + 1;
  }

  /** The buffer holds `g` groups, all of them read. */
  ghost predicate Whole(text: seq<char>, data: nat, g: nat, out: seq<int>, cut: int) {
    && data <= |text| && |Values(text[..data])| == 4 * g && (data > 0 ==> Significant(text[data - 1]))
    && out == Unpack(Values(text[..data])) && cut == Least(2, Pads(text[..data]))
  }

  /** The text has been read, and the last one of `g` groups is made up in part. */
  ghost predicate MadeUp(text: seq<char>, data: nat, g: nat, out: seq<int>, cut: int) {
    && data == |text| && g == GroupCount(text) && |Values(text)| < 4 * g
    && out == Unpack(Values(text) + Zeros(4 * g - |Values(text)|)) && cut == Least(2, Pads(text)) + 4 * g - |Values(text)|
  }

  /** `g` groups are in the buffer. */
  ghost predicate Written(text: seq<char>, strict: bool, data: nat, g: nat, out: seq<int>, cut: int) {
    && data <= |text| && (forall j :: 0 <= j < data ==> !Refused(text[j], strict))
    && g <= (data + 3) / 4 && |out| == 3 * g
    && (Whole(text, data, g, out, cut) || MadeUp(text, data, g, out, cut))
  }

  lemma StartsGroup(text: seq<char>, strict: bool, data: nat, g: nat, out: seq<int>, cut: int)
    requires data < |text| && Written(text, strict, data, g, out, cut)
    ensures Reads(text, strict, data, g, 0, 0, cut)
  {
  }

  lemma {:induction false} ValuesPrefix(text: seq<char>, k: nat)
    requires k <= |text|
    ensures Values(text[..k]) <= Values(text)
  {
    if k < |text| {
      ValuesPrefix(text[..|text| - 1], k);
      assert text[..|text| - 1][..k] == text[..k];
    } else {
      assert text[..k] == text;
    }
  }

  lemma ShiftedFour(v: seq<int>)
    requires |v| == 4
    ensures Shifted(v) == ((v[0] * 64 + v[1]) * 64 + v[2]) * 64 + v[3]
  {
    assert v[..3][..2] == v[..2] && v[..2][..1] == v[..1];
    assert Shifted(v[..1]) == v[0];
    assert Shifted(v[..2]) == v[0] * 64 + v[1];
    assert Shifted(v[..3]) == (v[0] * 64 + v[1]) * 64 + v[2];
  }

  lemma GroupDone(text: seq<char>, strict: bool, data: nat, g: nat, out: seq<int>, cut: int, data': nat, value: int, cut': int)
    requires data < data' <= |text| && Written(text, strict, data, g, out, cut) && Reads(text, strict, data', g, 4, value, cut')
    requires LastCounts(text, data', g, 4)
    ensures g < (|text| + 3) / 4
    ensures Written(text, strict, data', g + 1, out + Three(value), cut')
  {
    assert Whole(text, data, g, out, cut);
    if |Values(text[..data'])| == 4 * g + 4 {
      WholeGroup(text, data, g, out, cut, data', value, cut');
    } else {
      MadeUpGroup(text, data, g, out, cut, data', value, cut');
    }
  }

  lemma WholeGroup(text: seq<char>, data: nat, g: nat, out: seq<int>, cut: int, data': nat, value: int, cut': int)
    requires data < data' <= |text| && Whole(text, data, g, out, cut) && |Values(text[..data'])| == 4 * g + 4
    requires value == Shifted(Values(text[..data'])[4 * g..] + Zeros(0)) && cut' == Least(2, Pads(text[..data'])) && Significant(text[data' - 1])
    ensures Whole(text, data', g + 1, out + Three(value), cut')
  {
    GroupBytes(text, data, data', g, out, value);
    var now := Values(text[..data']);
    assert now + Zeros(0) == now;
  }

  lemma MadeUpGroup(text: seq<char>, data: nat, g: nat, out: seq<int>, cut: int, data': nat, value: int, cut': int)
    requires data < data' == |text| && Whole(text, data, g, out, cut) && 4 * g <= |Values(text[..data'])| < 4 * g + 4
    requires value == Shifted(Values(text[..data'])[4 * g..] + Zeros(4 * g + 4 - |Values(text[..data'])|))
    requires cut' == Least(2, Pads(text[..data'])) + 4 * g + 4 - |Values(text[..data'])|
    ensures MadeUp(text, data', g + 1, out + Three(value), cut')
  {
    GroupBytes(text, data, data', g, out, value);
    assert text[..data'] == text;
    if |Values(text)| == 4 * g { LastNotSignificant(text, data, g); }
    LastGroupCount(text, g);
  }

  /** White space at the end has made the decoder start a group that gets no values. */
  lemma LastNotSignificant(text: seq<char>, data: nat, g: nat)
    requires data < |text| && |Values(text[..data])| == 4 * g == |Values(text)|
    ensures !Significant(text[|text| - 1])
  {
    var last := |text| - 1;
    ValuesPrefix(text[..last], data);
    assert text[..last][..data] == text[..data];
  }

  /** The bytes of one more group, of which some values may be made up. */
  lemma GroupBytes(text: seq<char>, data: nat, data': nat, g: nat, out: seq<int>, value: int)
    requires data < data' <= |text| && |Values(text[..data])| == 4 * g && out == Unpack(Values(text[..data]))
    requires 4 * g <= |Values(text[..data'])| <= 4 * g + 4
    requires value == Shifted(Values(text[..data'])[4 * g..] + Zeros(4 * g + 4 - |Values(text[..data'])|))
    ensures var all := Values(text[..data']) + Zeros(4 * g + 4 - |Values(text[..data'])|);
            Unpack(all) == out + Three(value)
  {
    var was, now := Values(text[..data]), Values(text[..data']);
    ValuesPrefix(text[..data'], data);
    assert text[..data'][..data] == text[..data];
    var zeros := Zeros(4 * g + 4 - |now|);
    var four := now[4 * g..] + zeros;
    assert was == now[..4 * g];
    assert now == was + now[4 * g..];
    assert now + zeros == was + four;
    UnpackMore(was, four, g);
  }

  lemma UnpackMore(v: seq<int>, four: seq<int>, g: nat)
    requires |v| == 4 * g && |four| == 4
    ensures |v + four| % 4 == 0 && Unpack(v + four) == Unpack(v) + Three(Shifted(four))
  {
    ShiftedFour(four);
    var all, k := v + four, 4 * g;
    assert |all| - 4 == k && all[..k] == v;
    assert all[k] == four[0] && all[k + 1] == four[1] && all[k + 2] == four[2] && all[k + 3] == four[3];
  }

  lemma LastGroupCount(text: seq<char>, g: nat)
    requires text != [] && 4 * g <= |Values(text)| < 4 * g + 4 && (|Values(text)| == 4 * g ==> !Significant(text[|text| - 1]))
    ensures GroupCount(text) == g + 1
  {
  }

  /** At the end of the text, the result is what the text says. */
  lemma AllRead(text: seq<char>, strict: bool, g: nat, out: seq<int>, cut: int, size: int)
    requires Written(text, strict, |text|, g, out, cut) && size == (|text| + 3) / 4 * 3
    ensures Bytes(out, 3 * g - Least(cut, size)) == Reading(text)
    ensures forall j :: 0 <= j < |text| ==> !Refused(text[j], strict)
  {
    assert text[..|text|] == text;
    if Whole(text, |text|, g, out, cut) {
      FullCount(text, g);
      assert Values(text) + Zeros(0) == Values(text);
    }
    ReadingAt(text, g, out, cut, size);
  }

  lemma FullCount(text: seq<char>, g: nat)
    requires |Values(text)| == 4 * g && (text != [] ==> Significant(text[|text| - 1]))
    ensures GroupCount(text) == g
  {
  }

  lemma ReadingAt(text: seq<char>, g: nat, out: seq<int>, cut: int, size: int)
    requires g == GroupCount(text) && |Values(text)| <= 4 * g && size == (|text| + 3) / 4 * 3
    requires out == Unpack(Values(text) + Zeros(4 * g - |Values(text)|)) && cut == Least(2, Pads(text)) + 4 * g - |Values(text)|
    ensures Bytes(out, 3 * g - Least(cut, size)) == Reading(text)
  {
  }

  /** Put the bytes of a group into the buffer. */
  method PutThree(buf: array<int>, cursor: nat, value: int) returns (cursor': nat)
    requires cursor + 3 <= buf.Length
    modifies buf
    ensures cursor' == cursor + 3
    ensures buf[..cursor'] == old(buf[..cursor]) + Three(value)
  {
    buf[cursor] := value / 65536 % 256;
    buf[cursor + 1] := value / 256 % 256;
    buf[cursor + 2] := value % 256;
    cursor' := cursor + 3;
  }

  /** Read one more group and put its bytes into the buffer. */
  method NextGroup(text: seq<char>, strict: bool, data: nat, cut: int, buf: array<int>, cursor: nat, ghost g: nat)
    returns (refused: bool, data': nat, cut': int, cursor': nat)
    requires data < |text| && cursor == 3 * g <= buf.Length == (|text| + 3) / 4 * 3
    requires Written(text, strict, data, g, buf[..cursor], cut)
    modifies buf
    ensures data < data' <= |text|
    ensures if refused then Stuck(text, strict, data')
            else cursor' == cursor + 3 <= buf.Length && Written(text, strict, data', g + 1, buf[..cursor'], cut')
  {
    ghost var out := buf[..cursor];
    cursor' := cursor;
    StartsGroup(text, strict, data, g, out, cut);
    var value;
    refused, data', value, cut' := ReadGroup(text, strict, data, cut, g);
    if !refused {
      GroupDone(text, strict, data, g, out, cut, data', value, cut');
      cursor' := PutThree(buf, cursor, value);
    }
  }

  lemma SizeIs(n: nat)
    ensures (n + 3) / 4 * 4 * 3 / 4 == (n + 3) / 4 * 3
  {
    assert (n + 3) / 4 * 4 * 3 == 4 * ((n + 3) / 4 * 3);
  }

  /** Cut off what was made up or padded. */
  method Finish(text: seq<char>, strict: bool, buf: array<int>, cursor: nat, cut: int, ghost g: nat) returns (r: Decoded)
    requires cursor == 3 * g <= buf.Length == (|text| + 3) / 4 * 3 && Written(text, strict, |text|, g, buf[..cursor], cut)
    ensures r == Reading(text) && forall j :: 0 <= j < |text| ==> !Refused(text[j], strict)
  {
    AllRead(text, strict, g, buf[..cursor], cut, buf.Length);
    r := Bytes(buf[..cursor], cursor - if cut > buf.Length then buf.Length else cut);
  }

  /** Which characters are refused, by their codes. */
  lemma RefusedCodes(ch: char, strict: bool)
    ensures var c := ch as int;
            Refused(ch, strict) <==>
              !(65 <= c <= 90 || 97 <= c <= 122 || 48 <= c <= 57 || c == 43 || c == 47 || c == 61) && (strict || !(9 <= c <= 13 || c == 32))
  {
  }

  /** Decode: the first character that is neither a digit nor padding is reported, unless it is white
      space and the text is not taken strictly; otherwise every significant character counts, in
      groups of four. */
  method Decode(text: seq<char>, strict: bool) returns (r: Decoded)
    ensures r.Invalid? ==> r.at < |text| && r.c == text[r.at]
    ensures forall j :: 0 <= j < |text| ==>
      var c := text[j] as int;
      if !(65 <= c <= 90 || 97 <= c <= 122 || 48 <= c <= 57 || c == 43 || c == 47 || c == 61) && (strict || !(9 <= c <= 13 || c == 32))
      then r.Invalid? && r.at <= j
      else r.Invalid? ==> r.at != j
    ensures r.Bytes? ==> r == Reading(text)
  {
    r := DecodeGroups(text, strict);
    forall j | 0 <= j < |text|
      ensures var c := text[j] as int;
              if !(65 <= c <= 90 || 97 <= c <= 122 || 48 <= c <= 57 || c == 43 || c == 47 || c == 61) && (strict || !(9 <= c <= 13 || c == 32))
              then r.Invalid? && r.at <= j
              else r.Invalid? ==> r.at != j
    {
      RefusedCodes(text[j], strict);
    }
  }

  method DecodeGroups(text: seq<char>, strict: bool) returns (r: Decoded)
    ensures r.Invalid? ==> r.at < |text| && r.c == text[r.at] && Refused(r.c, strict) && forall j :: 0 <= j < r.at ==> !Refused(text[j], strict)
    ensures r.Bytes? ==> r == Reading(text) && forall j :: 0 <= j < |text| ==> !Refused(text[j], strict)
  {
    var count := |text|;
    var size := (count + 3) / 4 * 4 * 3 / 4;
    SizeIs(count);
    var buf := new int[size];
    var cursor: nat, data: nat, cut := 0, 0, 0;
    ghost var g := 0;
    while data < count
      invariant fresh(buf) && cursor == 3 * g <= size && Written(text, strict, data, g, buf[..cursor], cut)
    {
      var refused;
      refused, data, cut, cursor := NextGroup(text, strict, data, cut, buf, cursor, g);
      if refused {
        return Invalid(text[data - 1], data - 1);
      }
      g := g + 1;
    }
    r := Finish(text, strict, buf, cursor, cut, g);
  }

  // ----- what the result is, by bits

  lemma {:induction false} UnpackAt(v: seq<int>, g: nat)
    requires |v| % 4 == 0 && 4 * g < |v| && forall i :: 0 <= i < |v| ==> 0 <= v[i] < 64
    ensures var d, k, i := Unpack(v), 4 * g, 3 * g;
            && i + 3 <= |d| && 0 <= d[i] < 256 && 0 <= d[i + 1] < 256 && 0 <= d[i + 2] < 256
            && (d[i] * 256 + d[i + 1]) * 256 + d[i + 2] == ((v[k] * 64 + v[k + 1]) * 64 + v[k + 2]) * 64 + v[k + 3]
    decreases |v|
  {
    var k := |v| - 4;
    var first := Unpack(v[..k]);
    if 4 * g < k {
      UnpackAt(v[..k], g);
    } else {
      var value := ((v[k] * 64 + v[k + 1]) * 64 + v[k + 2]) * 64 + v[k + 3];
      ThreeIs(value);
      assert |first| == 3 * g && Unpack(v) == first + Three(value);
      assert Unpack(v)[3 * g..] == Three(value);
    }
  }

  lemma ThreeIs(value: int)
    requires 0 <= value < 16777216
    ensures var t := Three(value);
            && 0 <= t[0] < 256 && 0 <= t[1] < 256 && 0 <= t[2] < 256 && (t[0] * 256 + t[1]) * 256 + t[2] == value
  {
    var a, b := value / 65536, value % 65536;
    assert value / 256 == a * 256 + b / 256 by { assert value == 256 * (a * 256 + b / 256) + b % 256; }
    assert value % 256 == b % 256 by { assert value == 256 * (a * 256 + b / 256) + b % 256; }
  }

  /** Without padding, the result is of all bytes that the digits fill. */
  lemma UnpaddedLength(text: seq<char>)
    requires Pads(text) == 0 && (text != [] && |Values(text)| % 4 == 0 ==> Significant(text[|text| - 1]))
    ensures Reading(text).length == 3 * |Values(text)| / 4
  {
    var k := |Values(text)|;
    var g, r := k / 4, k % 4;
    assert k == 4 * g + r;
    assert k <= |text|;
  }
}
