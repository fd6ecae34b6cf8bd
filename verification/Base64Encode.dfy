/** The encoder of bytes into 6-bit digits, with lines wrapped. */
module Base64Encode {
  import opened Division

  type byte = x: int | 0 <= x < 256

  const DIGITS: seq<char> :=
    "ABCDEFGH" + "IJKLMNOP" + "QRSTUVWX" + "YZabcdef" + "ghijklmn" + "opqrstuv" + "wxyz0123" + "456789+/" + "="

  /** The place of the padding character in a table of digits. */
  const PAD := 64

  // ----- what is encoded

  /** The digits of the last three bytes or fewer. */
  function Four(d: seq<byte>): (q: seq<int>)
    requires 1 <= |d| <= 3
  {
    var d1, d2 := if |d| > 1 then d[1] else 0, if |d| > 2 then d[2] else 0;
    [d[0] / 4, d[0] % 4 * 16 + d1 / 16, if |d| > 1 then d1 % 16 * 4 + d2 / 64 else PAD, if |d| > 2 then d2 % 64 else PAD]
  }

  /** The number of full groups of three bytes before the last group. */
  function Before(n: int): (m: nat)
    requires n > 0
    ensures 3 * m < n <= 3 * m + 3
  {
    (n - 1) / 3
  }

  lemma GroupsOf(n: nat)
    requires n > 0
    ensures (n + 2) / 3 == Before(n) + 1 && (3 * Before(n) + 2) / 3 == Before(n)
  {
  }

  /** The digits of all bytes. */
  function Quads(data: seq<byte>): (q: seq<int>)
    ensures |q| == (|data| + 2) / 3 * 4
    ensures forall k :: 0 <= k < |q| ==> 0 <= q[k] <= PAD
  {
    if data == [] then [] else var m := Before(|data|); GroupsOf(|data|); Quads(data[..3 * m]) + Four(data[3 * m..])
  }

  function Chars(digits: seq<char>, q: seq<int>): (s: seq<char>)
    requires |digits| == 65 && forall k :: 0 <= k < |q| ==> 0 <= q[k] <= PAD
    ensures |s| == |q| && forall k :: 0 <= k < |q| ==> s[k] == digits[q[k]]
  {
    seq(|q|, k requires 0 <= k < |q| => digits[q[k]])
  }

  /** Whether a line ends after `k` of `n` characters. */
  predicate BreakAfter(k: int, n: int, maxlen: int) { maxlen > 0 && 0 < k < n && k % maxlen == 0 }

  /** The first `k` characters, with `wrap` where a line ends. */
  function Laid(s: seq<char>, k: nat, maxlen: int, wrap: seq<char>): seq<char>
    requires k <= |s|
  {
    if k == 0 then [] else Laid(s, k - 1, maxlen, wrap) + [s[k - 1]] + if BreakAfter(k, |s|, maxlen) then wrap else []
  }

  /** How many lines end within the first `k` of `n` characters. */
  function Breaks(k: nat, n: nat, maxlen: int): int
    requires k <= n
  {
    if maxlen <= 0 || k == 0 then 0 else if k < n then k / maxlen else (n - 1) / maxlen
  }

  /** The size that the encoder sets aside. */
  function Size(count: nat, maxlen: int, wraplen: nat): int {
    var size := (count * 4 / 3 + 3) / 4 * 4;
    if maxlen > 0 && size > maxlen then size + wraplen * (size / maxlen) - (if size % maxlen == 0 then wraplen else 0) else size
  }

  lemma NextMultiple(k: int, m: int)
    requires k > 0 && m > 0
    ensures k % m == 0 ==> k / m == (k - 1) / m + 1
    ensures k % m != 0 ==> k / m == (k - 1) / m
  {
    var q, r := k / m, k % m;
    assert k == m * q + r;
    if r == 0 {
      assert k - 1 == m * (q - 1) + (m - 1);
      DivIs(k - 1, m, q - 1, m - 1);
    } else {
      DivIs(k - 1, m, q, r - 1);
    }
  }

  /** The text laid out so far has one character for every digit, and a wrap for every line that has ended. */
  lemma {:induction false} LaidLength(s: seq<char>, k: nat, maxlen: int, wrap: seq<char>)
    requires k <= |s|
    ensures |Laid(s, k, maxlen, wrap)| == k + |wrap| * Breaks(k, |s|, maxlen)
  {
    if k > 0 {
      LaidLength(s, k - 1, maxlen, wrap);
      AnotherBreak(k, |s|, maxlen);
      Times(|wrap|, Breaks(k - 1, |s|, maxlen));
    }
  }

  lemma AnotherBreak(k: nat, n: nat, maxlen: int)
    requires 0 < k <= n
    ensures Breaks(k, n, maxlen) == Breaks(k - 1, n, maxlen) + if BreakAfter(k, n, maxlen) then 1 else 0
  {
    if maxlen > 0 {
      NextMultiple(k, maxlen);
      if k == 1 {
        DivIs(0, maxlen, 0, 0);
      }
    }
  }

  lemma Times(w: nat, x: int)
    ensures w * (x + 1) == w * x + w
  {
  }

  /** The size set aside is exactly the size of the text. */
  lemma SizeIsExact(s: seq<char>, count: nat, maxlen: int, wrap: seq<char>)
    requires count > 0 && |s| == (count + 2) / 3 * 4
    ensures |Laid(s, |s|, maxlen, wrap)| == Size(count, maxlen, |wrap|)
  {
    LaidLength(s, |s|, maxlen, wrap);
    assert (count * 4 / 3 + 3) / 4 * 4 == |s|;
    if maxlen > 0 {
      NextMultiple(|s|, maxlen);
      if |s| <= maxlen {
        DivIs(|s| - 1, maxlen, 0, |s| - 1);
      }
    }
  }

  /** Before the last character there is room for more, and a wrap never fills it up. */
  lemma RoomLeft(k: nat, n: nat, maxlen: int, wraplen: nat)
    requires 0 < k < n
    ensures k + wraplen * Breaks(k, n, maxlen) < n + wraplen * Breaks(n, n, maxlen)
    ensures Breaks(k - 1, n, maxlen) <= Breaks(k, n, maxlen)
    ensures k + wraplen * Breaks(k - 1, n, maxlen) <= k + wraplen * Breaks(k, n, maxlen)
  {
    if maxlen > 0 {
      DivMonotone(k, n - 1, maxlen);
      DivMonotone(k - 1, k, maxlen);
      if k == 1 { DivIs(0, maxlen, 0, 0); }
      MulMonotone(wraplen, Breaks(k, n, maxlen), Breaks(n, n, maxlen));
      MulMonotone(wraplen, Breaks(k - 1, n, maxlen), Breaks(k, n, maxlen));
    }
  }

  lemma DivMonotone(a: int, b: int, m: int)
    requires m > 0 && 0 <= a <= b
    ensures a / m <= b / m
  {
    var d := b / m - a / m;
    assert b - a == m * d + (b % m - a % m);
    Multiple(m, d);
  }

  lemma MulMonotone(w: nat, a: int, b: int)
    requires a <= b
    ensures w * a <= w * b
  {
  }

  // ----- the encoder

  /** Put out one character, and a wrap when the line is full and it is not the last. */
  method Output(buf: array<char>, cursor: nat, outindex: nat, c: char, maxlen: int, wrap: seq<char>,
                ghost s: seq<char>, ghost k: nat)
    returns (cursor': nat, outindex': nat)
    requires k < |s| && s[k] == c && Placed(buf, cursor, outindex, maxlen, wrap, s, k)
    modifies buf
    ensures Placed(buf, cursor', outindex', maxlen, wrap, s, k + 1)
  {
    LaidLength(s, k, maxlen, wrap);
    LaidLength(s, k + 1, maxlen, wrap);
    LaidLength(s, |s|, maxlen, wrap);
    if k + 1 < |s| {
      RoomLeft(k + 1, |s|, maxlen, |wrap|);
    }
    var limit := buf.Length;
    buf[cursor] := c;
    cursor' := cursor + 1;
    outindex' := outindex + 1;
    if maxlen > 0 && cursor' != limit {
      NextIndex(k, maxlen);
      if outindex' == maxlen {
        forall i | 0 <= i < |wrap| {
          buf[cursor' + i] := wrap[i];
        }
        cursor' := cursor' + |wrap|;
        outindex' := 0;
      }
    }
    assert cursor' <= limit;
    assert buf[..cursor'] == Laid(s, k + 1, maxlen, wrap);
  }

  /** `k` characters are in the buffer, which is as large as the whole text. */
  ghost predicate Placed(buf: array<char>, cursor: nat, outindex: nat, maxlen: int, wrap: seq<char>, s: seq<char>, k: nat)
    reads buf
  {
    && k <= |s| && buf.Length == |Laid(s, |s|, maxlen, wrap)| && cursor <= buf.Length
    && buf[..cursor] == Laid(s, k, maxlen, wrap)
    && (maxlen > 0 && k < |s| ==> outindex == k % maxlen)
  }

  lemma NothingPlaced(buf: array<char>, maxlen: int, wrap: seq<char>, s: seq<char>)
    requires buf.Length == |Laid(s, |s|, maxlen, wrap)|
    ensures Placed(buf, 0, 0, maxlen, wrap, s, 0)
  {
    if maxlen > 0 {
      DivIs(0, maxlen, 0, 0);
    }
  }

  lemma NextIndex(k: nat, m: int)
    requires m > 0
    ensures (k + 1) % m == if k % m + 1 == m then 0 else k % m + 1
  {
    var q := k / m;
    assert k == m * q + k % m;
    if k % m + 1 == m {
      assert k + 1 == m * (q + 1) + 0;
      DivIs(k + 1, m, q + 1, 0);
    } else {
      DivIs(k + 1, m, q, k % m + 1);
    }
  }

  /** The size to set aside for the text. */
  method SizeFor(count: nat, maxlen: int, wrap: seq<char>, ghost s: seq<char>) returns (size: nat)
    requires count > 0 && |s| == (count + 2) / 3 * 4
    ensures size == |Laid(s, |s|, maxlen, wrap)|
  {
    SizeIsExact(s, count, maxlen, wrap);
    size := (count * 4 / 3 + 3) / 4 * 4;
    if maxlen > 0 && size > maxlen {
      var adjusted := size + |wrap| * (size / maxlen);
      if size % maxlen == 0 {
        adjusted := adjusted - |wrap|;
      }
      size := adjusted;
    }
  }

  /** Encode: the text fills the space set aside for it, no more and no less. */
  method Encode(digits: seq<char>, data: seq<byte>, maxlen: int, wrap: seq<char>) returns (text: seq<char>)
    requires |digits| == 65
    ensures var s := Chars(digits, Quads(data)); text == Laid(s, |s|, maxlen, wrap)
  {
    var count := |data|;
    if count == 0 {
      return [];
    }
    ghost var s := Chars(digits, Quads(data));
    var size := SizeFor(count, maxlen, wrap, s);
    var buf := new char[size];
    var cursor: nat, outindex: nat := 0, 0;
    ghost var g := 0;
    NothingPlaced(buf, maxlen, wrap, s);
    var offset := 0;
    while offset < count
      invariant fresh(buf) && offset == 3 * g && (offset >= count ==> 4 * g == |s|)
      invariant Placed(buf, cursor, outindex, maxlen, wrap, s, 4 * g)
    {
      cursor, outindex := OutputGroup(digits, data, offset, buf, cursor, outindex, maxlen, wrap, g);
      g := g + 1;
      offset := offset + 3;
    }
    LaidLength(s, |s|, maxlen, wrap);
    text := buf[..];
    assert buf[..cursor] == text;
  }

  /** Put out the characters of the group at `offset`, padded if it is not full. */
  method OutputGroup(digits: seq<char>, data: seq<byte>, offset: nat, buf: array<char>, cursor: nat, outindex: nat, maxlen: int, wrap: seq<char>, ghost g: nat)
    returns (cursor': nat, outindex': nat)
    requires |digits| == 65 && offset < |data| && offset == 3 * g
    requires Placed(buf, cursor, outindex, maxlen, wrap, Chars(digits, Quads(data)), 4 * g)
    modifies buf
    ensures offset + 3 >= |data| ==> 4 * g + 4 == |Chars(digits, Quads(data))|
    ensures Placed(buf, cursor', outindex', maxlen, wrap, Chars(digits, Quads(data)), 4 * g + 4)
  {
    var q0, q1, q2, q3 := DigitsOf(data, offset, g);
    CharsAt(digits, data, g, q0, q1, q2, q3);
    ghost var s := Chars(digits, Quads(data));
    cursor', outindex' := OutputFour(digits[q0], digits[q1], digits[q2], digits[q3], buf, cursor, outindex, maxlen, wrap, s, 4 * g);
  }

  /** The digits of the group at `offset`, with 0 for the bytes that it lacks. */
  method DigitsOf(data: seq<byte>, offset: nat, ghost g: nat) returns (q0: int, q1: int, q2: int, q3: int)
    requires offset < |data| && offset == 3 * g
    ensures Four(GroupAt(data, g)) == [q0, q1, q2, q3]
  {
    var count := |data|;
    var d0 := data[offset];
    var d1 := if offset + 1 < count then data[offset + 1] else 0;
    var d2 := if offset + 2 < count then data[offset + 2] else 0;
    q0, q1 := d0 / 4, d0 % 4 * 16 + d1 / 16;
    q2 := if offset + 1 < count then d1 % 16 * 4 + d2 / 64 else PAD;
    q3 := if offset + 2 < count then d2 % 64 else PAD;
    ghost var d := GroupAt(data, g);
    assert d[0] == d0 && (|d| > 1 ==> d[1] == d1) && (|d| > 2 ==> d[2] == d2);
  }

  /** Put out four characters. */
  method OutputFour(c0: char, c1: char, c2: char, c3: char, buf: array<char>, cursor: nat, outindex: nat, maxlen: int, wrap: seq<char>,
                    ghost s: seq<char>, ghost k: nat)
    returns (cursor': nat, outindex': nat)
    requires k + 4 <= |s| && s[k] == c0 && s[k + 1] == c1 && s[k + 2] == c2 && s[k + 3] == c3
    requires Placed(buf, cursor, outindex, maxlen, wrap, s, k)
    modifies buf
    ensures Placed(buf, cursor', outindex', maxlen, wrap, s, k + 4)
  {
    cursor', outindex' := Output(buf, cursor, outindex, c0, maxlen, wrap, s, k);
    cursor', outindex' := Output(buf, cursor', outindex', c1, maxlen, wrap, s, k + 1);
    cursor', outindex' := Output(buf, cursor', outindex', c2, maxlen, wrap, s, k + 2);
    cursor', outindex' := Output(buf, cursor', outindex', c3, maxlen, wrap, s, k + 3);
  }

  /** The bytes of group `g`. */
  function GroupAt(data: seq<byte>, g: nat): (d: seq<byte>)
    requires 3 * g < |data|
    ensures 1 <= |d| <= 3
  {
    data[3 * g..if 3 * g + 3 < |data| then 3 * g + 3 else |data|]
  }

  lemma CharsAt(digits: seq<char>, data: seq<byte>, g: nat, q0: int, q1: int, q2: int, q3: int)
    requires |digits| == 65 && 3 * g < |data| && Four(GroupAt(data, g)) == [q0, q1, q2, q3]
    ensures var s, k := Chars(digits, Quads(data)), 4 * g;
            && k + 4 <= |s| && (3 * g + 3 >= |data| ==> k + 4 == |s|)
            && 0 <= q0 <= PAD && 0 <= q1 <= PAD && 0 <= q2 <= PAD && 0 <= q3 <= PAD
            && s[k] == digits[q0] && s[k + 1] == digits[q1] && s[k + 2] == digits[q2] && s[k + 3] == digits[q3]
  {
    QuadsAt(data, g);
    var all, k := Quads(data), 4 * g;
    var four := all[k..k + 4];
    assert four[0] == all[k] && four[1] == all[k + 1] && four[2] == all[k + 2] && four[3] == all[k + 3];
  }

  /** The digits of group `g`. */
  lemma {:induction false} QuadsAt(data: seq<byte>, g: nat)
    requires 3 * g < |data|
    ensures 4 * g + 4 <= |Quads(data)| && Quads(data)[4 * g..4 * g + 4] == Four(GroupAt(data, g))
    ensures 3 * g + 3 >= |data| ==> 4 * g + 4 == |Quads(data)|
    decreases |data|
  {
    var m := Before(|data|);
    var before, rest := data[..3 * m], data[3 * m..];
    var q := Quads(before);
    LastFour(data);
    if g < m {
      QuadsAt(before, g);
      SliceOfPrefix(data, 3 * m, 3 * g, 3 * g + 3);
      assert (q + Four(rest))[4 * g..4 * g + 4] == q[4 * g..4 * g + 4];
    } else {
      assert g == m && GroupAt(data, g) == rest;
      assert (q + Four(rest))[4 * m..] == Four(rest);
    }
  }

  lemma LastFour(data: seq<byte>)
    requires data != []
    ensures var m := Before(|data|); |Quads(data[..3 * m])| == 4 * m && Quads(data) == Quads(data[..3 * m]) + Four(data[3 * m..])
  {
    GroupsOf(|data|);
  }

  lemma SliceOfPrefix(data: seq<byte>, n: nat, i: nat, j: nat)
    requires i <= j <= n <= |data|
    ensures data[..n][i..j] == data[i..j]
  {
  }

  // ----- lines

  /** The text cut into lines of `maxlen` characters. */
  function Lines(s: seq<char>, maxlen: nat, wrap: seq<char>): seq<char>
    requires maxlen > 0
    decreases |s|
  {
    if |s| <= maxlen then s else s[..maxlen] + wrap + Lines(s[maxlen..], maxlen, wrap)
  }

  lemma {:induction false} LaidInLines(s: seq<char>, maxlen: nat, wrap: seq<char>)
    requires maxlen > 0
    ensures Laid(s, |s|, maxlen, wrap) == Lines(s, maxlen, wrap)
    decreases |s|
  {
    if |s| <= maxlen {
      FirstLine(s, |s|, maxlen, wrap);
      assert s[..|s|] == s;
    } else {
      LaterLines(s, |s| - maxlen, maxlen, wrap);
      LaidInLines(s[maxlen..], maxlen, wrap);
    }
  }

  lemma {:induction false} FirstLine(s: seq<char>, k: nat, maxlen: nat, wrap: seq<char>)
    requires k <= |s| && k <= maxlen && maxlen > 0
    ensures Laid(s, k, maxlen, wrap) == s[..k] + if k == maxlen < |s| then wrap else []
  {
    if k > 0 {
      FirstLine(s, k - 1, maxlen, wrap);
      DivIs(k, maxlen, if k == maxlen then 1 else 0, if k == maxlen then 0 else k);
      assert s[..k - 1] + [s[k - 1]] == s[..k];
    }
  }

  /** After the first line, the rest is laid out as if it stood alone. */
  lemma {:induction false} LaterLines(s: seq<char>, k: nat, maxlen: nat, wrap: seq<char>)
    requires maxlen > 0 && maxlen + k <= |s| && maxlen < |s|
    ensures Laid(s, maxlen + k, maxlen, wrap) == s[..maxlen] + wrap + Laid(s[maxlen..], k, maxlen, wrap)
  {
    if k == 0 {
      FirstLine(s, maxlen, maxlen, wrap);
    } else {
      LaterLines(s, k - 1, maxlen, wrap);
      DivIs(maxlen + k, maxlen, 1 + k / maxlen, k % maxlen);
      assert BreakAfter(maxlen + k, |s|, maxlen) <==> BreakAfter(k, |s[maxlen..]|, maxlen);
    }
  }
}
