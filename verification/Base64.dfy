/** Decoding what was encoded. */
module Base64 {
  import opened Base64Decode
  import opened Base64Encode
  import opened Division

  /** Every character has its place in the table as its value. */
  ghost predicate InPlace(row: seq<char>, first: nat) { forall i :: 0 <= i < |row| ==> ValueOf(row[i]) == first + i }

  /** A table of digits that the decoder agrees with. */
  ghost predicate Agrees(digits: seq<char>) { |digits| == 65 && digits[PAD] == '=' && InPlace(digits[..PAD], 0) }

  /** The base64 table is one. */
  lemma TableAgrees()
    ensures Agrees(DIGITS)
  {
    var t1 := "ABCDEFGH";
    var t2 := AnotherRow(t1, "IJKLMNOP");
    var t3 := AnotherRow(t2, "QRSTUVWX");
    var t4 := AnotherRow(t3, "YZabcdef");
    var t5 := AnotherRow(t4, "ghijklmn");
    var t6 := AnotherRow(t5, "opqrstuv");
    var t7 := AnotherRow(t6, "wxyz0123");
    var t8 := AnotherRow(t7, "456789+/");
    assert DIGITS == t8 + "=" && DIGITS[..PAD] == t8;
  }

  /** The table by character codes, that of section 4 of RFC 4648. */
  lemma Alphabet(i: nat)
    requires i < 64
    ensures |DIGITS| == 65 && DIGITS[64] as int == 61
    ensures DIGITS[i] as int == if i < 26 then 65 + i else if i < 52 then 97 + (i - 26) else if i < 62 then 48 + (i - 52)
                                else if i == 62 then 43 else 47
    ensures ValueOf(DIGITS[i]) == i
  {
    TableAgrees();
    assert DIGITS[..PAD][i] == DIGITS[i];
  }

  lemma AnotherRow(table: seq<char>, row: seq<char>) returns (more: seq<char>)
    requires InPlace(table, 0) && InPlace(row, |table|)
    ensures more == table + row && InPlace(more, 0)
  {
    more := table + row;
    forall i | 0 <= i < |more| ensures ValueOf(more[i]) == i {
      if i >= |table| {
        assert more[i] == row[i - |table|];
      }
    }
  }

  function ValuesOf(q: seq<int>): (v: seq<int>)
    ensures |v| == |q| && forall k :: 0 <= k < |q| ==> v[k] == if q[k] == PAD then 0 else q[k]
  {
    seq(|q|, k requires 0 <= k < |q| => if q[k] == PAD then 0 else q[k])
  }

  function PadsOf(q: seq<int>): nat {
    if q == [] then 0 else PadsOf(q[..|q| - 1]) + if q[|q| - 1] == PAD then 1 else 0
  }

  /** White space does not count. */
  lemma {:induction false} BlanksDoNotCount(text: seq<char>, tail: seq<char>)
    requires AllBlank(tail)
    ensures Values(text + tail) == Values(text) && Pads(text + tail) == Pads(text)
  {
    if tail == [] {
      assert text + tail == text;
    } else {
      var last := |tail| - 1;
      BlanksDoNotCount(text, tail[..last]);
      assert (text + tail)[..|text + tail| - 1] == text + tail[..last];
    }
  }

  /** Text that is not refused, and that ends with a significant character. */
  ghost predicate Clean(text: seq<char>) {
    && (forall j :: 0 <= j < |text| ==> !Refused(text[j], false))
    && (text != [] ==> Significant(text[|text| - 1]))
  }

  /** Whatever the line length, the text stands for its digits and nothing else. */
  lemma {:induction false} LaidValues(digits: seq<char>, q: seq<int>, k: nat, maxlen: int, wrap: seq<char>)
    requires k <= |q| && AllBlank(wrap) && (forall j :: 0 <= j < |q| ==> 0 <= q[j] <= PAD) && Agrees(digits)
    ensures var text := Laid(Chars(digits, q), k, maxlen, wrap);
            && Values(text) == ValuesOf(q[..k]) && Pads(text) == PadsOf(q[..k])
            && (forall j :: 0 <= j < |text| ==> !Refused(text[j], false))
            && (k > 0 && !BreakAfter(k, |q|, maxlen) ==> text != [] && Significant(text[|text| - 1]))
  {
    if k > 0 {
      LaidValues(digits, q, k - 1, maxlen, wrap);
      var s := Chars(digits, q);
      var c, before := s[k - 1], Laid(s, k - 1, maxlen, wrap);
      AnotherDigit(digits, q, k, before, c);
      BlanksDoNotCount(before + [c], if BreakAfter(k, |q|, maxlen) then wrap else []);
    }
  }

  lemma AnotherDigit(digits: seq<char>, q: seq<int>, k: nat, before: seq<char>, c: char)
    requires 0 < k <= |q| && 0 <= q[k - 1] <= PAD && Agrees(digits) && c == digits[q[k - 1]]
    requires Values(before) == ValuesOf(q[..k - 1]) && Pads(before) == PadsOf(q[..k - 1])
    ensures Significant(c) && Values(before + [c]) == ValuesOf(q[..k]) && Pads(before + [c]) == PadsOf(q[..k])
  {
    assert (before + [c])[..|before|] == before;
    assert q[..k][..k - 1] == q[..k - 1];
    assert q[k - 1] < PAD ==> digits[..PAD][q[k - 1]] == c;
  }

  /** The digits give the bytes back, and padding makes up for the bytes that the last group lacks. */
  lemma {:induction false} QuadsGiveBytes(data: seq<byte>)
    ensures GivesBack(Quads(data), data)
    decreases |data|
  {
    if data != [] {
      var m := Before(|data|);
      GroupsOf(|data|);
      var before, d := data[..3 * m], data[3 * m..];
      QuadsGiveBytes(before);
      QuadsMore(Quads(before), d, before);
      assert data == before + d;
    }
  }

  /** The digits `q` stand for `data`, and are padded for what the last group lacks. */
  ghost predicate GivesBack(q: seq<int>, data: seq<int>) {
    |q| % 4 == 0 && var d := Unpack(ValuesOf(q)); 4 * |d| == 3 * |q| && |d| >= |data| && d[..|data|] == data && PadsOf(q) == |d| - |data|
  }

  lemma QuadsMore(first: seq<int>, d: seq<byte>, before: seq<byte>)
    requires GivesBack(first, before) && 4 * |before| == 3 * |first| && 1 <= |d| <= 3
    ensures GivesBack(first + Four(d), before + d)
  {
    var four := Four(d);
    assert ValuesOf(first + four) == ValuesOf(first) + ValuesOf(four);
    UnpackMore(ValuesOf(first), ValuesOf(four), |first| / 4);
    assert Unpack(ValuesOf(first)) == before;
    FourGivesBytes(d);
    PadsOfFour(first, d);
  }

  lemma FourGivesBytes(d: seq<byte>)
    requires 1 <= |d| <= 3
    ensures Three(Shifted(ValuesOf(Four(d))))[..|d|] == d
  {
    var v := ValuesOf(Four(d));
    ShiftedFour(v);
    var d0: int, d1: int, d2: int := d[0], if |d| > 1 then d[1] else 0, if |d| > 2 then d[2] else 0;
    FourDigits(d0, d1, d2);
    assert v[0] == d0 / 4 && v[1] == d0 % 4 * 16 + d1 / 16 && v[2] == d1 % 16 * 4 + d2 / 64 && v[3] == d2 % 64;
    assert Shifted(v) == d0 * 65536 + d1 * 256 + d2;
    assert Three(Shifted(v)) == [d0, d1, d2];
  }

  lemma FourDigits(d0: int, d1: int, d2: int)
    requires 0 <= d0 < 256 && 0 <= d1 < 256 && 0 <= d2 < 256
    ensures ((d0 / 4 * 64 + (d0 % 4 * 16 + d1 / 16)) * 64 + (d1 % 16 * 4 + d2 / 64)) * 64 + d2 % 64 == d0 * 65536 + d1 * 256 + d2
    ensures Three(d0 * 65536 + d1 * 256 + d2) == [d0, d1, d2]
  {
    var a, b, c, d, e, f := d0 / 4, d0 % 4, d1 / 16, d1 % 16, d2 / 64, d2 % 64;
    assert d0 == 4 * a + b && d1 == 16 * c + d && d2 == 64 * e + f;
    var x := d0 * 65536 + d1 * 256 + d2;
    DivIs(x, 65536, d0, d1 * 256 + d2);
    DivIs(x, 256, d0 * 256 + d1, d2);
    DivIs(d0 * 256 + d1, 256, d0, d1);
    DivIs(d0, 256, 0, d0);
  }

  lemma PadsOfMore(q: seq<int>, x: int)
    ensures PadsOf(q + [x]) == PadsOf(q) + if x == PAD then 1 else 0
  {
    assert (q + [x])[..|q|] == q;
  }

  lemma PadsOfFour(first: seq<int>, d: seq<byte>)
    requires 1 <= |d| <= 3
    ensures PadsOf(first + Four(d)) == PadsOf(first) + 3 - |d|
  {
    var four := Four(d);
    PadsOfMore(first, four[0]);
    PadsOfMore(first + [four[0]], four[1]);
    PadsOfMore(first + [four[0]] + [four[1]], four[2]);
    PadsOfMore(first + [four[0]] + [four[1]] + [four[2]], four[3]);
    assert first + four == first + [four[0]] + [four[1]] + [four[2]] + [four[3]];
  }

  /** The text holds `m` values in full groups, and pads for the bytes that `n` lacks. */
  ghost predicate Holds(text: seq<char>, m: nat, n: nat) {
    Clean(text) && |Values(text)| == m && m % 4 == 0 && 4 * (Pads(text) + n) == 3 * m && Pads(text) <= 2
  }

  /** The encoded text as the decoder sees it. */
  lemma EncodedText(digits: seq<char>, data: seq<byte>, maxlen: int, wrap: seq<char>)
    requires AllBlank(wrap) && Agrees(digits)
    ensures var q := Quads(data); var text := Laid(Chars(digits, q), |q|, maxlen, wrap);
            Holds(text, |q|, |data|) && Values(text) == ValuesOf(q) && |q| <= |text|
  {
    var q := Quads(data);
    LaidValues(digits, q, |q|, maxlen, wrap);
    assert q[..|q|] == q;
    QuadsGiveBytes(data);
    LaidLength(Chars(digits, q), |q|, maxlen, wrap);
  }

  /** Decoding what was encoded gives it back, for every line length and every wrap of white space. */
  lemma RoundTrip(digits: seq<char>, data: seq<byte>, maxlen: int, wrap: seq<char>)
    requires Agrees(digits) && forall i :: 0 <= i < |wrap| ==> wrap[i] as int in {9, 10, 11, 12, 13, 32}
    ensures var s := Chars(digits, Quads(data)); var text := Laid(s, |s|, maxlen, wrap);
            && (forall j :: 0 <= j < |text| ==> var c := text[j] as int;
                  65 <= c <= 90 || 97 <= c <= 122 || 48 <= c <= 57 || c == 43 || c == 47 || c == 61 || 9 <= c <= 13 || c == 32)
            && Reading(text).length == |data| <= |Reading(text).buffer| && Reading(text).buffer[..|data|] == data
  {
    var q := Quads(data);
    EncodedText(digits, data, maxlen, wrap);
    QuadsGiveBytes(data);
    assert ValuesOf(q) + Zeros(0) == ValuesOf(q);
    var text := Laid(Chars(digits, q), |q|, maxlen, wrap);
    ReadingLength(text, |q|, |data|);
    ReadableCodes(text);
  }

  ghost predicate Readable(text: seq<char>) {
    forall j :: 0 <= j < |text| ==> var c := text[j] as int;
      65 <= c <= 90 || 97 <= c <= 122 || 48 <= c <= 57 || c == 43 || c == 47 || c == 61 || 9 <= c <= 13 || c == 32
  }

  lemma ReadableCodes(text: seq<char>)
    requires forall j :: 0 <= j < |text| ==> !Refused(text[j], false)
    ensures Readable(text)
  {
    forall j | 0 <= j < |text| ensures !Refused(text[j], false) {
      RefusedCodes(text[j], false);
    }
  }

  lemma ReadingLength(text: seq<char>, m: nat, n: nat)
    requires Holds(text, m, n)
    ensures 4 * GroupCount(text) == m && Reading(text).length == n
  {
  }

  /** White space after the text costs the last byte: such text is read back in full exactly if
      there is none. After the text of no bytes, up to four white-space characters do no harm;
      with more, the length comes out as -1. */
  lemma TrailingBlanks(digits: seq<char>, data: seq<byte>, maxlen: int, wrap: seq<char>, tail: seq<char>)
    requires Agrees(digits) && forall i :: 0 <= i < |wrap| ==> wrap[i] as int in {9, 10, 11, 12, 13, 32}
    requires forall i :: 0 <= i < |tail| ==> tail[i] as int in {9, 10, 11, 12, 13, 32}
    ensures var s := Chars(digits, Quads(data)); var text := Laid(s, |s|, maxlen, wrap) + tail;
            Reading(text).length == if tail == [] || (data == [] && |tail| <= 4) then |data| else |data| - 1
  {
    var q := Quads(data);
    EncodedText(digits, data, maxlen, wrap);
    var text := Laid(Chars(digits, q), |q|, maxlen, wrap);
    if tail == [] {
      assert text + tail == text;
      ReadingLength(text, |q|, |data|);
    } else if data == [] {
      LaidLength(Chars(digits, q), 0, maxlen, wrap);
      assert text + tail == tail;
      ReadingOnlyBlanks(tail);
    } else {
      ReadingBlanks(text, tail, |q|, |data|);
    }
  }

  lemma ReadingOnlyBlanks(tail: seq<char>)
    requires tail != [] && AllBlank(tail)
    ensures Reading(tail).length == if |tail| <= 4 then 0 else -1
  {
    NoValues(tail);
    assert !Significant(tail[|tail| - 1]);
    OneGroup(tail);
    Shortened(|tail|);
  }

  lemma NoValues(tail: seq<char>)
    requires AllBlank(tail)
    ensures Values(tail) == [] && Pads(tail) == 0
  {
    BlanksDoNotCount([], tail);
    assert [] + tail == tail;
  }

  lemma OneGroup(text: seq<char>)
    requires text != [] && Values(text) == [] && Pads(text) == 0 && !Significant(text[|text| - 1])
    ensures Reading(text).length == 3 - Least(4, (|text| + 3) / 4 * 3)
  {
    assert GroupCount(text) == 1;
  }

  lemma Shortened(n: nat)
    requires n > 0
    ensures 3 - Least(4, (n + 3) / 4 * 3) == if n <= 4 then 0 else -1
  {
  }

  lemma ReadingBlanks(text: seq<char>, tail: seq<char>, m: nat, n: nat)
    requires Holds(text, m, n) && m <= |text| && tail != [] && AllBlank(tail) && n > 0
    ensures Reading(text + tail).length == n - 1
  {
    BlanksDoNotCount(text, tail);
    var all := text + tail;
    assert all[|all| - 1] == tail[|tail| - 1];
    assert GroupCount(all) == m / 4 + 1;
  }

  // ----- what the digits are, by bits

  /** The digits of three bytes are their 24 bits, the first byte first; a byte or two at the end
      are filled up with zeros, and padded. */
  lemma DigitsAreBits(data: seq<byte>, g: nat)
    requires 3 * g < |data|
    ensures var q, k, i := Quads(data), 4 * g, 3 * g;
            && k + 4 <= |q| && 0 <= q[k] < 64 && 0 <= q[k + 1] < 64
            && (if i + 1 == |data| then q[k] * 64 + q[k + 1] == (data[i] as int) * 16 && q[k + 2] == q[k + 3] == 64
                else if i + 2 == |data| then 0 <= q[k + 2] < 64 && (q[k] * 64 + q[k + 1]) * 64 + q[k + 2] == ((data[i] as int) * 256 + (data[i + 1] as int)) * 4 && q[k + 3] == 64
                else && 0 <= q[k + 2] < 64 && 0 <= q[k + 3] < 64
                     && ((q[k] * 64 + q[k + 1]) * 64 + q[k + 2]) * 64 + q[k + 3] == ((data[i] as int) * 256 + (data[i + 1] as int)) * 256 + (data[i + 2] as int))
  {
    QuadsAt(data, g);
    var q, k, d := Quads(data), 4 * g, GroupAt(data, g);
    var four := q[k..k + 4];
    assert four[0] == q[k] && four[1] == q[k + 1] && four[2] == q[k + 2] && four[3] == q[k + 3];
    FourAreBits(d);
    assert d[0] == data[3 * g] && (|d| > 1 ==> d[1] == data[3 * g + 1]) && (|d| > 2 ==> d[2] == data[3 * g + 2]);
  }

  lemma FourAreBits(d: seq<byte>)
    requires 1 <= |d| <= 3
    ensures var f := Four(d);
            && 0 <= f[0] < 64 && 0 <= f[1] < 64
            && (if |d| == 1 then f[0] * 64 + f[1] == (d[0] as int) * 16 && f[2] == f[3] == 64
                else if |d| == 2 then 0 <= f[2] < 64 && (f[0] * 64 + f[1]) * 64 + f[2] == ((d[0] as int) * 256 + d[1]) * 4 && f[3] == 64
                else && 0 <= f[2] < 64 && 0 <= f[3] < 64 && ((f[0] * 64 + f[1]) * 64 + f[2]) * 64 + f[3] == ((d[0] as int) * 256 + d[1]) * 256 + d[2] as int)
  {
    var d0: int, d1: int, d2: int := d[0], if |d| > 1 then d[1] else 0, if |d| > 2 then d[2] else 0;
    assert d0 == 4 * (d0 / 4) + d0 % 4 && d1 == 16 * (d1 / 16) + d1 % 16 && d2 == 64 * (d2 / 64) + d2 % 64;
  }
}
