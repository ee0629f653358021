/**
 * The pyramid program: for a height `h`, rows `i = 1 .. h`, each made of
 * `h - i` spaces, `i` hashes, a one-space gap, `i` hashes and `h - i`
 * spaces, so that two facing pyramids share a centre column.
 */
module Pyramid {
  import opened Wrappers

  const Gap: string := " "
  const NotANumber: string := "son yozing:"
  const TooSmall: string := "input ony number greater than 0"

  /** `c * n` in Python for a one-character string `c`: `n` copies of `c`, and none for `n <= 0`. */
  function Repeat(c: char, n: int): (s: string)
    ensures |s| == if n > 0 then n else 0
    ensures forall k :: 0 <= k < |s| ==> s[k] == c
  {
    if n <= 0 then "" else Repeat(c, n - 1) + [c]
  }

  /** Row `i` of a pyramid of height `height`. */
  function Row(height: int, i: int): string {
    Repeat(' ', height - i) + Repeat('#', i) + Gap + Repeat('#', i) + Repeat(' ', height - i)
  }

  /**
   * Character `k` of row `i`: a space in the `h - i` columns at either edge
   * and in the centre column `h`, a hash everywhere else.
   */
  lemma RowAt(h: int, i: int, k: int)
    requires 1 <= i <= h && 0 <= k <= 2 * h
    ensures |Row(h, i)| == 2 * h + 1
    ensures Row(h, i)[k] == if k < h - i || k > h + i || k == h then ' ' else '#'
  {
    var sp, hs := Repeat(' ', h - i), Repeat('#', i);
    var row := sp + hs + Gap + hs + sp;
    assert |row| == 2 * h + 1;
    if k < h - i {
      assert row[k] == sp[k];
    } else if k < h {
      assert row[k] == hs[k - (h - i)];
    } else if k == h {
      assert row[k] == Gap[0];
    } else if k <= h + i {
      assert row[k] == hs[k - h - 1];
    } else {
      assert row[k] == sp[k - h - i - 1];
    }
  }

  /** Every row is `2h + 1` characters wide, with a space in the centre column `h`. */
  lemma RowWidth(h: int, i: int)
    requires 1 <= i <= h
    ensures |Row(h, i)| == 2 * h + 1 && Row(h, i)[h] == ' '
  {
    RowAt(h, i, h);
  }

  /** Row `i` starts with `h - i` spaces followed by `i` hashes. */
  lemma RowStart(h: int, i: int)
    requires 1 <= i <= h
    ensures |Row(h, i)| == 2 * h + 1
    ensures Row(h, i)[..h - i] == Repeat(' ', h - i) && Row(h, i)[h - i..h] == Repeat('#', i)
  {
    RowWidth(h, i);
    var row := Row(h, i);
    forall k | 0 <= k < h
      ensures row[k] == (if k < h - i then ' ' else '#')
    {
      RowAt(h, i, k);
    }
  }

  function Reverse(s: string): (r: string)
    ensures |r| == |s|
  {
    if s == [] then [] else Reverse(s[1..]) + [s[0]]
  }

  lemma {:induction false} ReverseAt(s: string, k: nat)
    requires k < |s|
    ensures Reverse(s)[k] == s[|s| - 1 - k]
  {
    if k < |s| - 1 {
      ReverseAt(s[1..], k);
    }
  }

  /** Every row reads the same backwards. */
  lemma RowPalindrome(h: int, i: int)
    requires 1 <= i <= h
    ensures Reverse(Row(h, i)) == Row(h, i)
  {
    var row := Row(h, i);
    RowWidth(h, i);
    forall k | 0 <= k < |row|
      ensures Reverse(row)[k] == row[k]
    {
      ReverseAt(row, k);
      RowAt(h, i, k);
      RowAt(h, i, 2 * h - k);
    }
  }

  function Count(c: char, s: string): nat {
    if s == [] then 0 else Count(c, s[..|s| - 1]) + (if s[|s| - 1] == c then 1 else 0)
  }

  lemma {:induction false} CountAppend(c: char, a: string, b: string)
    ensures Count(c, a + b) == Count(c, a) + Count(c, b)
    decreases |b|
  {
    if b == [] {
      assert a + b == a;
    } else {
      assert (a + b)[..|a + b| - 1] == a + b[..|b| - 1];
      CountAppend(c, a, b[..|b| - 1]);
    }
  }

  lemma {:induction false} CountRepeat(c: char, d: char, n: int)
    ensures Count(c, Repeat(d, n)) == if c == d && n > 0 then n else 0
  {
    if n > 0 {
      var s := Repeat(d, n);
      assert s[..|s| - 1] == Repeat(d, n - 1);
      CountRepeat(c, d, n - 1);
    }
  }

  /** Row `i` holds exactly `2i` hashes. */
  lemma RowHashes(h: int, i: int)
    requires 1 <= i <= h
    ensures Count('#', Row(h, i)) == 2 * i
  {
    var sp, hs := Repeat(' ', h - i), Repeat('#', i);
    CountAppend('#', sp + hs + Gap + hs, sp);
    CountAppend('#', sp + hs + Gap, hs);
    CountAppend('#', sp + hs, Gap);
    CountAppend('#', sp, hs);
    CountRepeat('#', ' ', h - i);
    CountRepeat('#', '#', i);
    assert Gap[..0] == [];
  }

  /** `pyramid`: the rows for `i = 1 .. height`, in that order; none for a height below 1. */
  method Build(height: int) returns (rows: seq<string>)
    ensures |rows| == if height > 0 then height else 0
    ensures forall k :: 0 <= k < |rows| ==> rows[k] == Row(height, k + 1)
  {
    rows := [];
    var i := 1;
    while i <= height
      invariant 1 <= i <= (if height > 0 then height else 0) + 1
      invariant |rows| == i - 1
      invariant forall k :: 0 <= k < |rows| ==> rows[k] == Row(height, k + 1)
    {
      rows := rows + [Row(height, i)];
      i := i + 1;
    }
  }

  /**
   * One round of the prompt loop of `main` on one line typed in (`None` for
   * a line `int` rejects): only a height above 0 reaches `pyramid`; any
   * other number, or no number, gets the corresponding complaint.
   */
  method Respond(line: Option<int>) returns (output: seq<string>)
    ensures line.None? ==> output == [NotANumber]
    ensures line.Some? && line.value <= 0 ==> output == [TooSmall]
    ensures line.Some? && line.value > 0 ==> |output| == line.value
    ensures line.Some? && line.value > 0 ==> forall k :: 0 <= k < |output| ==> output[k] == Row(line.value, k + 1)
  {
    if line.None? {
      return [NotANumber];
    }
    var number := line.value;
    if number <= 0 {
      return [TooSmall];
    }
    output := Build(number);
  }
}
