/**
 * The `vocab` table of the bot, seen through the five helpers that touch it.
 * Rows are kept in insertion order, so a row's position plays the part of
 * its auto-increment id. The date column is not modelled.
 */
module VocabStore {
  import opened Wrappers

  /** One stored word: Korean word, English meaning and an example sentence that may be empty. */
  datatype Entry = Entry(korean: string, english: string, example: string)

  /** The two columns the quiz reads. */
  datatype Pair = Pair(korean: string, english: string)

  function PairOf(e: Entry): Pair {
    Pair(e.korean, e.english)
  }

  /** The `(korean, english)` projection of every row, in order. */
  function Pairs(rows: seq<Entry>): (ps: seq<Pair>)
    ensures |ps| == |rows|
    ensures forall k :: 0 <= k < |rows| ==> ps[k] == PairOf(rows[k])
  {
    seq(|rows|, k requires 0 <= k < |rows| => PairOf(rows[k]))
  }

  function Min(a: nat, b: nat): nat {
    if a <= b then a else b
  }

  /**
   * What `ORDER BY RANDOM() LIMIT limit` may return: as many rows as the
   * limit allows, each row of the table at most as often as it occurs there.
   * The order and the distribution are not modelled.
   */
  predicate IsSample<T(==)>(s: seq<T>, xs: seq<T>, limit: nat) {
    |s| == Min(limit, |xs|) && multiset(s) <= multiset(xs)
  }

  /** A prefix of the table is one possible sample, so a sample always exists. */
  lemma PrefixIsSample<T>(xs: seq<T>, limit: nat)
    ensures IsSample(xs[..Min(limit, |xs|)], xs, limit)
  {
    var m := Min(limit, |xs|);
    assert xs == xs[..m] + xs[m..];
    assert multiset(xs) == multiset(xs[..m]) + multiset(xs[m..]);
  }

  /** For a positive limit a sample is empty exactly when the table is. */
  lemma SampleEmpty<T>(s: seq<T>, xs: seq<T>, limit: nat)
    requires IsSample(s, xs, limit) && limit > 0
    ensures s == [] <==> xs == []
  {
  }

  /** A sample holds only rows of the table. */
  lemma {:induction false} SampleMembers<T>(s: seq<T>, xs: seq<T>, limit: nat)
    requires IsSample(s, xs, limit)
    ensures forall k :: 0 <= k < |s| ==> s[k] in xs
  {
    forall k | 0 <= k < |s|
      ensures s[k] in xs
    {
      assert s[k] in multiset(s);
    }
  }

  /** `ORDER BY id DESC LIMIT limit`: the newest `limit` rows, newest first. */
  function Newest(rows: seq<Entry>, limit: nat): (r: seq<Entry>)
    ensures |r| == Min(limit, |rows|)
    ensures forall k :: 0 <= k < |r| ==> r[k] == rows[|rows| - 1 - k]
  {
    var m := Min(limit, |rows|);
    seq(m, k requires 0 <= k < m => rows[|rows| - 1 - k])
  }

  /**
   * A word just added is the first of the newest rows, and the rest of the
   * listing is what was newest before, one shorter.
   */
  lemma NewestAfterAdd(rows: seq<Entry>, e: Entry, limit: nat)
    requires limit >= 1
    ensures Newest(rows + [e], limit) == [e] + Newest(rows, limit - 1)
  {
    var r, s := Newest(rows + [e], limit), Newest(rows, limit - 1);
    assert |r| == |[e] + s|;
    forall k | 0 <= k < |r|
      ensures r[k] == ([e] + s)[k]
    {
      if k > 0 {
        assert (rows + [e])[|rows| - k] == rows[|rows| - 1 - (k - 1)];
      }
    }
  }

  /** The vocabulary table, shared by every conversation. */
  class Store {
    var rows: seq<Entry>

    /** `init_db` on a database that has no table yet. */
    constructor ()
      ensures rows == []
    {
      rows := [];
    }

    /** `add_word`: appends exactly one row and changes nothing else. */
    method AddWord(korean: string, english: string, sentence: string)
      modifies this
      ensures rows == old(rows) + [Entry(korean, english, sentence)]
    {
      rows := rows + [Entry(korean, english, sentence)];
    }

    /** `get_recent_words`. */
    method RecentWords(limit: nat) returns (r: seq<Entry>)
      ensures r == Newest(rows, limit)
    {
      r := Newest(rows, limit);
    }

    /** `get_random_words`: a random sample of whole rows. */
    method RandomWords(limit: nat) returns (r: seq<Entry>)
      ensures IsSample(r, rows, limit)
    {
      PrefixIsSample(rows, limit);
      r :| IsSample(r, rows, limit);
    }

    /** `get_random_word`: some row's two columns, or nothing when the table is empty. */
    method RandomWord() returns (r: Option<Pair>)
      ensures r.None? <==> rows == []
      ensures r.Some? ==> r.value in Pairs(rows)
    {
      if rows == [] {
        r := None;
      } else {
        var ps := Pairs(rows);
        assert ps[0] in ps;
        var p :| p in ps;
        r := Some(p);
      }
    }

    /** `get_random_words_for_quiz`: a random sample of the rows' two columns. */
    method RandomQuizPool(limit: nat) returns (r: seq<Pair>)
      ensures IsSample(r, Pairs(rows), limit)
    {
      PrefixIsSample(Pairs(rows), limit);
      r :| IsSample(r, Pairs(rows), limit);
    }
  }
}
