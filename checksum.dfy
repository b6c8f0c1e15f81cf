/**
 * The Internet checksum of `checksum` in A3/client.cpp (the C loop of
 * section 4.1 of RFC 1071). The input is the byte sequence the pointer
 * walks; each 16-bit load reads two bytes in little-endian order, as on
 * the x86 hosts the client runs on.
 */
module Checksum {
  type Byte = b: int | 0 <= b < 0x100
  type Word = w: int | 0 <= w < 0x1_0000

  /** The 16-bit value a load from two consecutive bytes yields. */
  function Load(lo: Byte, hi: Byte): Word {
    lo + 0x100 * hi
  }

  /**
   * The words the loop adds: one per pair of bytes, then an odd final byte
   * as a word whose first memory byte is that byte and second is zero.
   */
  function Words(data: seq<Byte>): (ws: seq<Word>)
  {
    if |data| == 0 then []
    else if |data| % 2 == 1 then Words(data[..|data| - 1]) + [Load(data[|data| - 1], 0)]
    else Words(data[..|data| - 2]) + [Load(data[|data| - 2], data[|data| - 1])]
  }

  /** One word per pair of bytes, and one more for an odd final byte. */
  lemma {:induction false} WordsLength(data: seq<Byte>)
    ensures 2 * |Words(data)| == |data| + |data| % 2
    decreases |data|
  {
    if |data| % 2 == 1 {
      WordsLength(data[..|data| - 1]);
    } else if |data| != 0 {
      WordsLength(data[..|data| - 2]);
    }
  }

  /** Words never straddle an even boundary. */
  lemma {:induction false} WordsOfConcat(x: seq<Byte>, y: seq<Byte>)
    requires |x| % 2 == 0
    ensures Words(x + y) == Words(x) + Words(y)
    decreases |y|
  {
    if |y| == 0 {
      assert x + y == x;
    } else if |y| % 2 == 1 {
      WordsOfConcat(x, y[..|y| - 1]);
      ConcatOddStep(x, y);
    } else {
      WordsOfConcat(x, y[..|y| - 2]);
      ConcatEvenStep(x, y);
    }
  }

  /** An odd final byte of y is the odd final byte of x + y. */
  lemma ConcatOddStep(x: seq<Byte>, y: seq<Byte>)
    requires |x| % 2 == 0 && |y| % 2 == 1
    ensures Words(x + y) == Words(x + y[..|y| - 1]) + [Load(y[|y| - 1], 0)]
    ensures Words(y) == Words(y[..|y| - 1]) + [Load(y[|y| - 1], 0)]
  {
    var xy := x + y;
    assert |xy| % 2 == 1;
    assert xy[..|xy| - 1] == x + y[..|y| - 1];
    assert xy[|xy| - 1] == y[|y| - 1];
  }

  /** The final pair of y is the final pair of x + y. */
  lemma ConcatEvenStep(x: seq<Byte>, y: seq<Byte>)
    requires |x| % 2 == 0 && |y| % 2 == 0 && |y| != 0
    ensures Words(x + y) == Words(x + y[..|y| - 2]) + [Load(y[|y| - 2], y[|y| - 1])]
    ensures Words(y) == Words(y[..|y| - 2]) + [Load(y[|y| - 2], y[|y| - 1])]
  {
    var xy := x + y;
    assert |xy| % 2 == 0 && |xy| != 0;
    assert xy[..|xy| - 2] == x + y[..|y| - 2];
    assert xy[|xy| - 2] == y[|y| - 2] && xy[|xy| - 1] == y[|y| - 1];
  }

  /** The loop's step: two more bytes after an even prefix add one word. */
  lemma WordsOfLongerPrefix(data: seq<Byte>, i: nat)
    requires i % 2 == 0 && i + 2 <= |data|
    ensures Words(data[..i + 2]) == Words(data[..i]) + [Load(data[i], data[i + 1])]
  {
    var p := data[..i + 2];
    assert |p| % 2 == 0 && |p| != 0;
    assert p[..|p| - 2] == data[..i];
  }

  /** The odd final byte is added as a word of its own. */
  lemma OddTail(data: seq<Byte>)
    requires |data| % 2 == 1
    ensures Words(data) == Words(data[..|data| - 1]) + [Load(data[|data| - 1], 0)]
  {
  }

  /** Word `k` is the load of bytes `2k` and `2k + 1`; an odd last byte is padded with zero. */
  lemma WordAt(data: seq<Byte>, k: nat)
    requires 2 * k < |data|
    ensures k < |Words(data)|
    ensures 2 * k + 1 < |data| ==> Words(data)[k] == Load(data[2 * k], data[2 * k + 1])
    ensures 2 * k + 1 == |data| ==> Words(data)[k] == Load(data[2 * k], 0)
  {
    var x := data[..2 * k];
    var y := data[2 * k..];
    assert data == x + y;
    WordsOfConcat(x, y);
    WordsLength(x);
    FirstWord(y);
  }

  /** The first word of a non-empty input is the load of its first two bytes, or of the only one and zero. */
  lemma FirstWord(y: seq<Byte>)
    requires |y| >= 1
    ensures |Words(y)| >= 1
    ensures |y| >= 2 ==> Words(y)[0] == Load(y[0], y[1])
    ensures |y| == 1 ==> Words(y)[0] == Load(y[0], 0)
  {
    if |y| >= 2 {
      var pair := [y[0], y[1]];
      assert y == pair + y[2..];
      WordsOfConcat(pair, y[2..]);
      assert pair[..0] == [];
    } else {
      assert y[..0] == [];
    }
  }

  /** The sum of the words, without any folding. */
  function Sum(ws: seq<Word>): nat {
    if ws == [] then 0 else Sum(ws[..|ws| - 1]) + ws[|ws| - 1]
  }

  lemma SumOfSnoc(ws: seq<Word>, w: Word)
    ensures Sum(ws + [w]) == Sum(ws) + w
  {
    assert (ws + [w])[..|ws|] == ws;
  }

  /** `sum = (sum >> 16) + (sum & 0xffff); sum += (sum >> 16);` */
  function Fold(sum: nat): nat {
    var once := sum / 0x1_0000 + sum % 0x1_0000;
    once + once / 0x1_0000
  }

  /** `(unsigned short)(short)~sum`: the low 16 bits of the complement. */
  function Complement(sum: nat): Word {
    0xFFFF - sum % 0x1_0000
  }

  /** What `checksum` returns for a sequence of words. */
  function WordChecksum(ws: seq<Word>): Word {
    Complement(Fold(Sum(ws)))
  }

  /** What `checksum` returns for the bytes `data`. */
  function ChecksumOf(data: seq<Byte>): Word {
    WordChecksum(Words(data))
  }

  /** `checksum(ptr, nbytes)` over the `nbytes` bytes `data`. */
  method ComputeChecksum(data: seq<Byte>) returns (answer: Word)
    ensures answer == ChecksumOf(data)
  {
    var sum := SumWordsOf(data);
    sum := sum / 0x1_0000 + sum % 0x1_0000;
    sum := sum + sum / 0x1_0000;
    answer := Complement(sum);
  }

  /** The loop of `checksum`: the words of `data` added up, the odd final byte included. */
  method SumWordsOf(data: seq<Byte>) returns (sum: nat)
    ensures sum == Sum(Words(data))
  {
    sum := 0;
    var i := 0;
    var nbytes := |data|;
    while nbytes > 1
      invariant 0 <= i <= |data| && i % 2 == 0 && nbytes == |data| - i
      invariant sum == Sum(Words(data[..i]))
    {
      WordsOfLongerPrefix(data, i);
      SumOfSnoc(Words(data[..i]), Load(data[i], data[i + 1]));
      sum := sum + Load(data[i], data[i + 1]);
      i := i + 2;
      nbytes := nbytes - 2;
    }
    if nbytes == 1 {
      OddTail(data);
      assert data[..|data| - 1] == data[..i];
      SumOfSnoc(Words(data[..i]), Load(data[i], 0));
      sum := sum + Load(data[i], 0);
    } else {
      assert data[..i] == data;
    }
  }

  // ----------------------------------------------------------------------
  // Ones'-complement arithmetic

  /** Ones'-complement addition of two 16-bit words: the carry wraps around. */
  function OnesAdd(a: Word, b: Word): Word {
    if a + b >= 0x1_0000 then a + b - 0xFFFF else a + b
  }

  /** The 16-bit ones'-complement sum of the words, taken one word at a time. */
  function OnesSum(ws: seq<Word>): Word {
    if ws == [] then 0 else OnesAdd(OnesSum(ws[..|ws| - 1]), ws[|ws| - 1])
  }

  /** The ones'-complement residue of a sum: 0 only for 0, else in 1..0xFFFF. */
  function Residue(sum: nat): Word {
    if sum == 0 then 0 else (sum - 1) % 0xFFFF + 1
  }

  lemma ResidueOfCongruent(a: nat, b: nat)
    requires (a == 0) == (b == 0) && a % 0xFFFF == b % 0xFFFF
    ensures Residue(a) == Residue(b)
  {
    if a != 0 {
      assert (a - 1) % 0xFFFF == (b - 1) % 0xFFFF;
    }
  }

  /** Word by word, the ones'-complement sum is the residue of the plain sum. */
  lemma {:induction false} OnesSumIsResidue(ws: seq<Word>)
    ensures OnesSum(ws) == Residue(Sum(ws))
  {
    if ws != [] {
      var init := ws[..|ws| - 1];
      OnesSumIsResidue(init);
      OnesAddOfResidue(Sum(init), ws[|ws| - 1]);
    }
  }

  /** Adding a word to the residue of a sum gives the residue of the larger sum. */
  lemma OnesAddOfResidue(s: nat, w: Word)
    ensures OnesAdd(Residue(s), w) == Residue(s + w)
  {
    var r := Residue(s);
    assert r % 0xFFFF == s % 0xFFFF;
    var t := OnesAdd(r, w);
    assert t % 0xFFFF == (s + w) % 0xFFFF;
    assert (t == 0) == (s + w == 0);
    assert t == 0 || 1 <= t <= 0xFFFF;
    ResidueOfCongruent(t, s + w);
    ResidueFixed(t);
  }

  lemma ResidueFixed(t: nat)
    requires t <= 0xFFFF
    ensures Residue(t) == t
  {
  }

  /** Below 2^32, the two folds leave the residue in the low 16 bits. */
  lemma FoldIsResidue(sum: nat)
    requires sum < 0x1_0000_0000
    ensures Fold(sum) % 0x1_0000 == Residue(sum)
  {
    var once := sum / 0x1_0000 + sum % 0x1_0000;
    assert sum == 0x1_0000 * (sum / 0x1_0000) + sum % 0x1_0000;
    assert once % 0xFFFF == sum % 0xFFFF;
    assert once <= 2 * 0xFFFF;
    var low := if once < 0x1_0000 then once else once - 0xFFFF;
    assert Fold(sum) % 0x1_0000 == low;
    ResidueFixed(low);
    ResidueOfCongruent(low, sum);
  }

  /**
   * When the raw word sum stays below 2^32, `checksum` returns the
   * complement of the 16-bit ones'-complement sum of its words.
   */
  lemma ChecksumIsComplementOfOnesSum(ws: seq<Word>)
    requires Sum(ws) < 0x1_0000_0000
    ensures WordChecksum(ws) == 0xFFFF - OnesSum(ws)
    ensures WordChecksum(ws) + OnesSum(ws) == 0xFFFF
  {
    OnesSumIsResidue(ws);
    FoldIsResidue(Sum(ws));
  }

  /** An empty input gives 0xFFFF. */
  lemma EmptyChecksum()
    ensures ChecksumOf([]) == 0xFFFF
  {
  }

  // ----------------------------------------------------------------------
  // Order independence (commutativity, section 2 of RFC 1071)

  lemma {:induction false} SumWithout(ws: seq<Word>, j: nat)
    requires j < |ws|
    ensures Sum(ws) == Sum(ws[..j] + ws[j + 1..]) + ws[j]
    decreases |ws|
  {
    var n := |ws| - 1;
    if j < n {
      var init := ws[..n];
      SumWithout(init, j);
      var rest := ws[..j] + ws[j + 1..];
      assert rest[..|rest| - 1] == init[..j] + init[j + 1..];
      assert rest[|rest| - 1] == ws[n];
    } else {
      assert ws[..j] + ws[j + 1..] == ws[..n];
    }
  }

  /** The raw sum depends only on which words occur, and how often. */
  lemma {:induction false} SumOfPermutation(a: seq<Word>, b: seq<Word>)
    requires multiset(a) == multiset(b)
    ensures Sum(a) == Sum(b)
    decreases |a|
  {
    if a != [] {
      var n := |a| - 1;
      var w := a[n];
      assert a == a[..n] + [w];
      assert w in multiset(b);
      var j :| 0 <= j < |b| && b[j] == w;
      var b' := b[..j] + b[j + 1..];
      assert b == b[..j] + [w] + b[j + 1..];
      assert multiset(b') == multiset(b) - multiset{w};
      assert multiset(a[..n]) == multiset(a) - multiset{w};
      SumOfPermutation(a[..n], b');
      SumWithout(b, j);
    } else {
      assert |b| == |multiset(b)| == 0;
    }
  }

  /** So the checksum is the same for any order of the same words. */
  lemma ChecksumOfPermutation(a: seq<Word>, b: seq<Word>)
    requires multiset(a) == multiset(b)
    ensures WordChecksum(a) == WordChecksum(b)
  {
    SumOfPermutation(a, b);
  }

  // ----------------------------------------------------------------------
  // Verification (section 1 of RFC 1071)

  lemma {:induction false} SumBound(ws: seq<Word>)
    ensures Sum(ws) <= 0xFFFF * |ws|
  {
    if ws != [] {
      SumBound(ws[..|ws| - 1]);
    }
  }

  lemma {:induction false} SumOfConcat(a: seq<Word>, b: seq<Word>)
    ensures Sum(a + b) == Sum(a) + Sum(b)
    decreases |b|
  {
    if b == [] {
      assert a + b == a;
    } else {
      var n := |b| - 1;
      assert (a + b)[..|a + b| - 1] == a + b[..n];
      SumOfConcat(a, b[..n]);
    }
  }

  /** The bytes of a 16-bit value stored in host order. */
  function Bytes(c: Word): seq<Byte> {
    [c % 0x100, c / 0x100]
  }

  /** The raw sum of bytes with a two-byte field after an even prefix. */
  lemma SumAroundField(prefix: seq<Byte>, lo: Byte, hi: Byte, suffix: seq<Byte>)
    requires |prefix| % 2 == 0
    ensures Sum(Words(prefix + [lo, hi] + suffix)) == Sum(Words(prefix)) + Load(lo, hi) + Sum(Words(suffix))
  {
    var field := [lo, hi];
    assert Words(field) == [Load(lo, hi)] by { assert field[..0] == []; }
    assert prefix + field + suffix == prefix + (field + suffix);
    WordsOfConcat(prefix, field + suffix);
    WordsOfConcat(field, suffix);
    SumOfConcat(Words(prefix), [Load(lo, hi)] + Words(suffix));
    SumOfConcat([Load(lo, hi)], Words(suffix));
    SumOfSnoc([], Load(lo, hi));
  }

  /** The residue is a representative of the sum, no larger than it. */
  lemma ResidueOfSum(s: nat)
    ensures Residue(s) <= s
    ensures (s - Residue(s)) % 0xFFFF == 0
  {
    if s != 0 {
      var t := (s - 1) % 0xFFFF;
      var q := (s - 1) / 0xFFFF;
      assert s - 1 == 0xFFFF * q + t;
      assert s - Residue(s) == 0xFFFF * q;
    }
  }

  /** A positive multiple of 0xFFFF has residue 0xFFFF: ones'-complement "negative zero". */
  lemma ResidueOfMultiple(k: nat)
    requires k > 0
    ensures Residue(0xFFFF * k) == 0xFFFF
  {
    var s := 0xFFFF * k;
    assert s - 1 == 0xFFFF * (k - 1) + 0xFFFE;
    assert (s - 1) % 0xFFFF == 0xFFFE;
  }

  /** Adding the checksum of a sum to that sum gives a sum whose checksum is 0. */
  lemma ComplementCancels(s: nat)
    requires s <= 0xFFFF * 0xFFFF
    ensures Complement(Fold(s + Complement(Fold(s)))) == 0
  {
    FoldIsResidue(s);
    var r := Residue(s);
    ResidueOfSum(s);
    var k := (s - r) / 0xFFFF;
    assert s - r == 0xFFFF * k;
    var s' := s + (0xFFFF - r);
    assert s' == 0xFFFF * (k + 1);
    ResidueOfMultiple(k + 1);
    FoldIsResidue(s');
  }

  /**
   * With a zero check field at an even offset (after `prefix`), storing
   * the checksum in that field makes the checksum of the same bytes 0, for
   * inputs of at most 65536 words.
   */
  lemma SumBesideField(prefix: seq<Byte>, suffix: seq<Byte>)
    requires |prefix| % 2 == 0 && |prefix| + 2 + |suffix| <= 0x2_0000
    ensures Sum(Words(prefix)) + Sum(Words(suffix)) <= 0xFFFF * 0xFFFF
  {
    var p, q := Words(prefix), Words(suffix);
    SumBound(p);
    SumBound(q);
    WordsLength(prefix);
    WordsLength(suffix);
    WordCountBound(|prefix|, |suffix|, |p|, |q|);
    ScaledBound(Sum(p), Sum(q), |p|, |q|);
  }

  lemma WordCountBound(m: nat, n: nat, a: nat, b: nat)
    requires m + 2 + n <= 0x2_0000 && m % 2 == 0 && 2 * a == m + m % 2 && 2 * b == n + n % 2
    ensures a + b <= 0xFFFF
  {
  }

  lemma ScaledBound(x: nat, y: nat, a: nat, b: nat)
    requires x <= 0xFFFF * a && y <= 0xFFFF * b && a + b <= 0xFFFF
    ensures x + y <= 0xFFFF * 0xFFFF
  {
  }

  lemma StoredChecksumVerifies(prefix: seq<Byte>, suffix: seq<Byte>)
    requires |prefix| % 2 == 0 && |prefix| + 2 + |suffix| <= 0x2_0000
    ensures ChecksumOf(prefix + Bytes(ChecksumOf(prefix + [0, 0] + suffix)) + suffix) == 0
  {
    var c := ChecksumOf(prefix + [0, 0] + suffix);
    var b := Bytes(c);
    LoadOfBytes(c);
    var stored := prefix + [b[0], b[1]] + suffix;
    assert stored == prefix + b + suffix;
    var s := Sum(Words(prefix)) + Sum(Words(suffix));
    SumAroundField(prefix, 0, 0, suffix);
    SumAroundField(prefix, b[0], b[1], suffix);
    SumBesideField(prefix, suffix);
    CancelStep(Sum(Words(prefix + [0, 0] + suffix)), Sum(Words(stored)), s, c);
  }

  /** The two stored bytes load back as the value. */
  lemma LoadOfBytes(c: Word)
    ensures |Bytes(c)| == 2 && Load(Bytes(c)[0], Bytes(c)[1]) == c
  {
  }

  /** A sum and its checksum add up to a sum whose checksum is 0. */
  lemma CancelStep(zeroed: nat, total: nat, s: nat, c: Word)
    requires s <= 0xFFFF * 0xFFFF && zeroed == s && c == Complement(Fold(zeroed)) && total == s + c
    ensures Complement(Fold(total)) == 0
  {
    ComplementCancels(s);
  }
}
