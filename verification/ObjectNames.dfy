/** The names under which images are stored: the partition number printed into an
    object space name and parsed back, and the C string comparisons on path names. */
module ObjectNames {
  import opened Bytes

  const PATH_SEP: char := '/'

  // --------------------------------------------------------------- C strings

  /** strrchr, as an index; -1 for a character that does not occur. */
  function LastIndexOf(s: string, c: char): (i: int)
    ensures -1 <= i < |s|
    ensures i >= 0 ==> s[i] == c
    ensures forall j :: i < j < |s| ==> s[j] != c
  {
    if s == [] then -1 else if s[|s| - 1] == c then |s| - 1 else LastIndexOf(s[..|s| - 1], c)
  }

  predicate IsDigit(c: char) {
    '0' <= c <= '9'
  }

  function DigitValue(c: char): nat
    requires IsDigit(c)
  {
    c as int - '0' as int
  }

  function DigitChar(d: nat): (c: char)
    requires d < 10
    ensures IsDigit(c) && DigitValue(c) == d
  {
    '0' + d as char
  }

  /** The digits in front of `s`, appended to the number `before`. */
  function Digits(s: string, before: nat): nat {
    if s == [] || !IsDigit(s[0]) then before else Digits(s[1..], 10 * before + DigitValue(s[0]))
  }

  /** atoi, without white space in front. */
  function Atoi(s: string): int {
    if s != [] && s[0] == '-' then 0 - Digits(s[1..], 0)
    else if s != [] && s[0] == '+' then Digits(s[1..], 0)
    else Digits(s, 0)
  }

  /** %4.4d of a number that is not negative. */
  function FourDigits(n: nat): string {
    Zeros(4 - |Decimal(n)|) + Decimal(n)
  }

  function Decimal(n: nat): (s: string)
    ensures |s| > 0 && forall i :: 0 <= i < |s| ==> IsDigit(s[i])
  {
    if n < 10 then [DigitChar(n)] else Decimal(n / 10) + [DigitChar(n % 10)]
  }

  function Zeros(n: int): (s: string)
    ensures forall i :: 0 <= i < |s| ==> s[i] == '0'
  {
    if n <= 0 then "" else "0" + Zeros(n - 1)
  }

  lemma {:induction false} DigitsOfZeros(n: int, s: string)
    ensures Digits(Zeros(n) + s, 0) == Digits(s, 0)
  {
    if n <= 0 {
      assert Zeros(n) + s == s;
    } else {
      assert (Zeros(n) + s)[1..] == Zeros(n - 1) + s;
      DigitsOfZeros(n - 1, s);
    }
  }

  lemma {:induction false} DigitsAppend(s: string, d: nat, before: nat)
    requires d < 10 && forall i :: 0 <= i < |s| ==> IsDigit(s[i])
    ensures Digits(s + [DigitChar(d)], before) == 10 * Digits(s, before) + d
  {
    var t := s + [DigitChar(d)];
    if s == [] {
      assert t[1..] == [];
    } else {
      assert t[1..] == s[1..] + [DigitChar(d)];
      DigitsAppend(s[1..], d, 10 * before + DigitValue(s[0]));
    }
  }

  lemma {:induction false} DigitsOfDecimal(n: nat)
    ensures Digits(Decimal(n), 0) == n
  {
    if n >= 10 {
      DigitsOfDecimal(n / 10);
      DigitsAppend(Decimal(n / 10), n % 10, 0);
    } else {
      assert Decimal(n)[1..] == [];
    }
  }

  lemma {:induction false} DigitsBefore(d: string, s: string, before: nat)
    requires forall i :: 0 <= i < |d| ==> IsDigit(d[i])
    requires s == "" || s[0] !in "0123456789"
    ensures Digits(d + s, before) == Digits(d, before)
  {
    if d == "" {
      assert d + s == s;
      DigitsOnly(s);
    } else {
      assert (d + s)[1..] == d[1..] + s;
      DigitsBefore(d[1..], s, 10 * before + DigitValue(d[0]));
    }
  }

  lemma DigitsOnly(s: string)
    ensures s != "" && IsDigit(s[0]) ==> s[0] in "0123456789"
  {
    if s != "" && IsDigit(s[0]) {
      var d := DigitValue(s[0]);
      assert d < 10 && "0123456789"[d] == s[0];
    }
  }

  lemma NoNumber(s: string)
    requires s == "" || s[0] !in "0123456789+-"
    ensures Atoi(s) == 0
  {
    DigitsOnly(s);
  }

  /** A number of any size is parsed with any sign in front of it, up to the first
      character that is not a digit; where there is none, 0 is. */
  lemma AtoiIs(n: nat, s: string)
    requires s == "" || s[0] !in "0123456789"
    ensures Atoi(Decimal(n) + s) == n && Atoi("+" + Decimal(n) + s) == n && Atoi("-" + Decimal(n) + s) == 0 - n
    ensures (s == "" || s[0] !in "+-") ==> Atoi(s) == 0
  {
    if s == "" || s[0] !in "+-" {
      NoNumber(s);
    }
    hide Decimal, Digits;
    DigitsOfDecimal(n);
    DigitsBefore(Decimal(n), s, 0);
    assert ("+" + Decimal(n) + s)[1..] == Decimal(n) + s && ("-" + Decimal(n) + s)[1..] == Decimal(n) + s;
  }

  /** A number of up to four digits is printed with just four. */
  lemma FourDigitsAre(n: nat)
    ensures |FourDigits(n)| == if n < 10000 then 4 else |Decimal(n)|
    ensures Digits(FourDigits(n), 0) == n && forall i :: 0 <= i < |FourDigits(n)| ==> IsDigit(FourDigits(n)[i])
  {
    DigitsOfZeros(4 - |Decimal(n)|, Decimal(n));
    DigitsOfDecimal(n);
    ZerosLength(4 - |Decimal(n)|);
    DecimalLength(n);
  }

  lemma {:induction false} ZerosLength(n: int)
    ensures |Zeros(n)| == if n > 0 then n else 0
  {
    if n > 0 {
      ZerosLength(n - 1);
    }
  }

  lemma DecimalLength(n: nat)
    ensures |Decimal(n)| <= 4 <==> n < 10000
  {
    var a, b, c, d := n / 10, n / 10 / 10, n / 10 / 10 / 10, n / 10 / 10 / 10 / 10;
    assert |Decimal(n)| == if n < 10 then 1 else 1 + |Decimal(a)|;
    assert |Decimal(a)| == if a < 10 then 1 else 1 + |Decimal(b)|;
    assert |Decimal(b)| == if b < 10 then 1 else 1 + |Decimal(c)|;
    assert |Decimal(c)| == if c < 10 then 1 else 1 + |Decimal(d)|;
  }

  // ------------------------------------------------------- object space names

  /** The object space name that bldWriteObjDesc prints. */
  function SpaceName(alias: string, nodeNum: U16): string {
    "/" + alias + [PATH_SEP] + "NODE" + FourDigits(nodeNum)
  }

  /** The partition number that sqluvint and getLatestCopy parse from a name: behind
      the last separator and the four letters, cut to 16 bits. */
  function PartitionOf(space: string): U16 {
    var i := LastIndexOf(space, PATH_SEP);
    var start := if i < 0 then 0 else if i + 5 <= |space| then i + 5 else |space|;
    Atoi(space[start..]) % 0x1_0000
  }

  lemma LastIndexIs(s: string, c: char, k: nat)
    requires k < |s| && s[k] == c && c !in s[k + 1..]
    ensures LastIndexOf(s, c) == k
  {
  }

  lemma NumberRoundTrip(n: U16)
    ensures Atoi(FourDigits(n)) == n && PATH_SEP !in FourDigits(n)
  {
    DigitsOfZeros(4 - |Decimal(n)|, Decimal(n));
    DigitsOfDecimal(n);
  }

  /** Whatever the alias, even one with separators in it, the partition number is
      parsed back; so the names of different partitions differ. */
  lemma PartitionRoundTrip(alias: string, nodeNum: U16)
    ensures SpaceName(alias, nodeNum) == "/" + alias + "/NODE" + FourDigits(nodeNum)
    ensures PartitionOf(SpaceName(alias, nodeNum)) == nodeNum
  {
    var space, number := SpaceName(alias, nodeNum), FourDigits(nodeNum);
    var k := |alias| + 1;
    NumberRoundTrip(nodeNum);
    NameParts("/" + alias, [PATH_SEP], "NODE", number);
    LastIndexIs(space, PATH_SEP, k);
  }

  /** What stands behind "/NODE" is the number of the partition, cut to 16 bits; a name
      without separators is taken for a number itself. */
  lemma PartitionIs(front: string, n: nat, space: string)
    ensures PartitionOf(front + "/NODE" + Decimal(n)) == n % 0x1_0000
    ensures '/' !in space ==> PartitionOf(space) == Atoi(space) % 0x1_0000
  {
    hide Decimal, Atoi;
    NameParts(front, "/", "NODE", Decimal(n));
    LastIndexIs(front + "/" + "NODE" + Decimal(n), '/', |front|);
    assert front + "/NODE" + Decimal(n) == front + "/" + "NODE" + Decimal(n);
    assert Decimal(n) + "" == Decimal(n);
    AtoiIs(n, "");
    if '/' !in space {
      assert space[0..] == space;
    }
  }

  /** The path name that bldWriteObjDesc prints. */
  function PathName(filename: string, timestamp: string, sequence: string): string {
    [PATH_SEP] + filename + "." + timestamp + "." + sequence
  }

  lemma NameParts(a: string, b: string, c: string, d: string)
    requires |b| == 1
    ensures var s := a + b + c + d; s[|a|] == b[0] && s[|a| + 1..] == c + d && s[|a| + 1 + |c|..] == d
  {
  }

  // ------------------------------------------------------------ comparing names

  /** The sign of strncmp. */
  function StrnCmp(a: string, b: string, n: nat): (c: int)
    ensures -1 <= c <= 1
    decreases n
  {
    if n == 0 || (a == [] && b == []) then 0
    else if a == [] then -1
    else if b == [] then 1
    else if a[0] < b[0] then -1
    else if a[0] > b[0] then 1
    else StrnCmp(a[1..], b[1..], n - 1)
  }

  /** The order of names: the first difference decides, and a name comes after those
      that it begins with. */
  predicate Greater(a: string, b: string) {
    exists i :: 0 <= i < |a| && DecidesAt(a, b, i)
  }

  predicate DecidesAt(a: string, b: string, i: nat)
    requires i < |a|
  {
    i <= |b| && a[..i] == b[..i] && (i == |b| || a[i] > b[i])
  }

  /** The first `n` characters. */
  function Cut(s: string, n: nat): (c: string)
    ensures |c| <= n && |c| <= |s|
  {
    if |s| <= n then s else s[..n]
  }

  lemma DecidesHead(x: char, a: string, b: string, i: nat)
    requires i < |a|
    ensures DecidesAt([x] + a, [x] + b, i + 1) <==> DecidesAt(a, b, i)
  {
    assert ([x] + a)[..i + 1] == [x] + a[..i];
    if i <= |b| {
      assert ([x] + b)[..i + 1] == [x] + b[..i];
      assert a[..i] == ([x] + a[..i])[1..] && b[..i] == ([x] + b[..i])[1..];
    }
  }

  lemma GreaterHead(x: char, a: string, b: string)
    ensures Greater([x] + a, [x] + b) <==> Greater(a, b)
  {
    if Greater(a, b) {
      var i :| 0 <= i < |a| && DecidesAt(a, b, i);
      DecidesHead(x, a, b, i);
    }
    if Greater([x] + a, [x] + b) {
      var i :| 0 <= i < |[x] + a| && DecidesAt([x] + a, [x] + b, i);
      assert i > 0;
      DecidesHead(x, a, b, i - 1);
    }
  }

  lemma GreaterStarts(a: string, b: string)
    requires Greater(a, b) && b != []
    ensures a[0] >= b[0]
  {
    var i :| 0 <= i < |a| && DecidesAt(a, b, i);
    if i > 0 {
      assert a[..i][0] == a[0] && b[..i][0] == b[0];
    }
  }

  lemma GreaterHeads(a: string, b: string)
    requires a != [] && (b == [] || a[0] != b[0])
    ensures Greater(a, b) <==> b == [] || a[0] > b[0]
  {
    if b == [] || a[0] > b[0] {
      assert DecidesAt(a, b, 0);
    }
    if Greater(a, b) && b != [] {
      GreaterStarts(a, b);
    }
  }

  /** strncmp compares the first `n` characters in that order. */
  lemma {:induction false} ComparesCut(a: string, b: string, n: nat)
    ensures StrnCmp(a, b, n) > 0 <==> Greater(Cut(a, n), Cut(b, n))
    decreases n
  {
    var c, d := Cut(a, n), Cut(b, n);
    if c == [] {
    } else if d == [] || c[0] != d[0] {
      GreaterHeads(c, d);
    } else {
      ComparesCut(a[1..], b[1..], n - 1);
      assert c == [c[0]] + Cut(a[1..], n - 1) && d == [c[0]] + Cut(b[1..], n - 1);
      GreaterHead(c[0], Cut(a[1..], n - 1), Cut(b[1..], n - 1));
    }
  }

  // The order is a strict total order.

  lemma NotGreaterThanItself(a: string)
    ensures !Greater(a, a)
  {
  }

  lemma GreaterIsTransitive(a: string, b: string, c: string)
    requires Greater(a, b) && Greater(b, c)
    ensures Greater(a, c)
  {
    var i :| 0 <= i < |a| && DecidesAt(a, b, i);
    var j :| 0 <= j < |b| && DecidesAt(b, c, j);
    var k := if i < j then i else j;
    assert a[..k] == a[..i][..k] && b[..k] == b[..i][..k] && b[..k] == b[..j][..k] && c[..k] == c[..j][..k];
    assert i < j ==> b[i] == b[..j][i] && c[i] == c[..j][i];
    assert j < i ==> a[j] == a[..i][j] && b[j] == b[..i][j];
    assert DecidesAt(a, c, k);
  }

  lemma {:induction false} GreaterIsTotal(a: string, b: string)
    ensures a == b || Greater(a, b) || Greater(b, a)
  {
    if a == [] || b == [] || a[0] != b[0] {
      if a != [] {
        GreaterHeads(a, b);
      }
      if b != [] {
        GreaterHeads(b, a);
      }
    } else {
      GreaterIsTotal(a[1..], b[1..]);
      assert a == [a[0]] + a[1..] && b == [a[0]] + b[1..];
      GreaterHead(a[0], a[1..], b[1..]);
      GreaterHead(a[0], b[1..], a[1..]);
    }
  }

  /** What is greater than a name's beginning, but not than the name, begins so too. */
  lemma Squeezed(m: string, c: string, d: string)
    requires m <= c && Greater(d, m) && !Greater(d, c)
    ensures m < d
  {
    var i :| 0 <= i < |d| && DecidesAt(d, m, i);
    if i < |m| {
      assert m[..i] == c[..i] && m[i] == c[i];
      assert DecidesAt(d, c, i);
    }
  }

  lemma GreaterOfCut(a: string, b: string, n: nat)
    requires Greater(a, b)
    ensures Greater(Cut(a, n), Cut(b, n)) || Cut(a, n) == Cut(b, n)
  {
    var i :| 0 <= i < |a| && DecidesAt(a, b, i);
    if i < n {
      assert Cut(a, n)[..i] == a[..i] && (i <= |Cut(b, n)| ==> Cut(b, n)[..i] == b[..i]);
      assert DecidesAt(Cut(a, n), Cut(b, n), i);
    } else {
      assert a[..n] == a[..i][..n] && b[..n] == b[..i][..n];
    }
  }

  lemma {:induction false} EqualCut(a: string, b: string, n: nat)
    ensures StrnCmp(a, b, n) == 0 <==> Cut(a, n) == Cut(b, n)
    decreases n
  {
    if n > 0 && a != [] && b != [] {
      EqualCut(a[1..], b[1..], n - 1);
      assert Cut(a, n) == [a[0]] + Cut(a[1..], n - 1) && Cut(b, n) == [b[0]] + Cut(b[1..], n - 1);
    }
  }

  /** A name that begins with a greater one is greater. */
  lemma LongerIsGreater(m: string, c: string, d: string)
    requires m <= c && Greater(m, d)
    ensures Greater(c, d)
  {
    var i :| 0 <= i < |m| && DecidesAt(m, d, i);
    assert m[..i] == c[..i];
    assert DecidesAt(c, d, i);
  }
}
