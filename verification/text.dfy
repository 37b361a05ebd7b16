/** Python's `str.split(sep)` and `sep.join(parts)` for a one-character
    separator, the list slice `parts[:k]`, and an independent description of
    what splitting, keeping `k` pieces and rejoining leaves of a string. */
module Text {

  /** Number of occurrences of `d` in `s`. */
  function Count(s: string, d: char): nat
  {
    if s == [] then 0 else (if s[0] == d then 1 else 0) + Count(s[1..], d)
  }

  lemma {:induction false} CountAppend(a: string, b: string, d: char)
    ensures Count(a + b, d) == Count(a, d) + Count(b, d)
    decreases |a|
  {
    if a != [] {
      assert (a + b)[1..] == a[1..] + b;
      CountAppend(a[1..], b, d);
    } else {
      assert a + b == b;
    }
  }

  /** `d.join(parts)`: the pieces with one `d` between each neighbouring pair. */
  function Join(parts: seq<string>, d: char): string
  {
    if |parts| == 0 then []
    else if |parts| == 1 then parts[0]
    else parts[0] + [d] + Join(parts[1..], d)
  }

  /** Prepending a character to the first piece prepends it to the join. */
  lemma JoinConsHead(x: char, p: string, tail: seq<string>, d: char)
    ensures Join([[x] + p] + tail, d) == [x] + Join([p] + tail, d)
  {
  }

  /** `s.split(d)`: the maximal `d`-free pieces of `s`, in order. An empty
      string splits into one empty piece, and each `d` ends a piece. */
  function Split(s: string, d: char): (parts: seq<string>)
    ensures |parts| == Count(s, d) + 1
    ensures forall i :: 0 <= i < |parts| ==> d !in parts[i]
    ensures Join(parts, d) == s
    decreases |s|
  {
    if s == [] then [[]]
    else
      var rest := Split(s[1..], d);
      if s[0] == d then
        assert ([[]] + rest)[1..] == rest;
        [[]] + rest
      else
        JoinConsHead(s[0], rest[0], rest[1..], d);
        assert [rest[0]] + rest[1..] == rest;
        assert s == [s[0]] + s[1..];
        [[s[0]] + rest[0]] + rest[1..]
  }

  /** A `d`-free string splits into itself alone. */
  lemma SplitFree(p: string, d: char)
    requires d !in p
    ensures Split(p, d) == [p]
    decreases |p|
  {
  }

  /** Splitting a `d`-free piece followed by `d` peels that piece off. */
  lemma {:induction false} SplitPiece(p: string, rest: string, d: char)
    requires d !in p
    ensures Split(p + [d] + rest, d) == [p] + Split(rest, d)
    decreases |p|
  {
    if p == [] {
      assert p + [d] + rest == [d] + rest;
      assert ([d] + rest)[1..] == rest;
    } else {
      var s := p + [d] + rest;
      assert s[1..] == p[1..] + [d] + rest;
      SplitPiece(p[1..], rest, d);
      assert [p[0]] + p[1..] == p;
    }
  }

  /** Splitting undoes joining: a non-empty list of `d`-free pieces is
      recovered from its join. Together with the last ensures of `Split`
      this makes the two exact inverses. */
  lemma {:induction false} SplitJoin(parts: seq<string>, d: char)
    requires |parts| >= 1
    requires forall i :: 0 <= i < |parts| ==> d !in parts[i]
    ensures Split(Join(parts, d), d) == parts
    decreases |parts|
  {
    if |parts| == 1 {
      SplitFree(parts[0], d);
    } else {
      SplitJoin(parts[1..], d);
      SplitPiece(parts[0], Join(parts[1..], d), d);
      assert [parts[0]] + parts[1..] == parts;
    }
  }

  /** Python's `xs[:k]` for `k >= 0`: the first `k` elements, or all of them. */
  function Take<T>(xs: seq<T>, k: nat): seq<T>
  {
    if k <= |xs| then xs[..k] else xs
  }

  /** The text of `s` before its `k`-th occurrence of `d`, or all of `s` when
      it holds fewer than `k` of them; empty when `k` is 0. Defined by a
      single scan, without splitting. */
  function UpToNth(s: string, d: char, k: nat): string
    decreases |s|
  {
    if k == 0 || s == [] then []
    else if s[0] == d then (if k == 1 then [] else [d] + UpToNth(s[1..], d, k - 1))
    else [s[0]] + UpToNth(s[1..], d, k)
  }

  function Min(a: int, b: int): int { if a <= b then a else b }

  /** `UpToNth` is the prefix of `s` that stops just before the `k`-th `d`:
      it holds `k - 1` of them (or all of them, if there are fewer than `k`),
      and when it stops short of the end the next character is a `d`. */
  lemma {:induction false} UpToNthSpec(s: string, d: char, k: nat)
    ensures UpToNth(s, d, k) <= s
    ensures k >= 1 ==> Count(UpToNth(s, d, k), d) == Min(k - 1, Count(s, d))
    ensures k >= 1 && |UpToNth(s, d, k)| < |s| ==> s[|UpToNth(s, d, k)|] == d
    ensures k >= 1 && Count(s, d) < k ==> UpToNth(s, d, k) == s
    decreases |s|
  {
    if k == 0 || s == [] {
    } else {
      var k' := if s[0] == d then k - 1 else k;
      if k' >= 1 {
        UpToNthSpec(s[1..], d, k');
        assert UpToNth(s, d, k) == [s[0]] + UpToNth(s[1..], d, k');
        ConsPrefix(s[0], UpToNth(s[1..], d, k'), s[1..], d);
      }
    }
  }

  /** Putting the same character in front of a prefix and of the string keeps
      the prefix relation, adds the same count, and shifts the next
      character by one. */
  lemma ConsPrefix(c: char, u: string, t: string, d: char)
    requires u <= t
    ensures [c] + u <= [c] + t
    ensures Count([c] + u, d) == (if c == d then 1 else 0) + Count(u, d)
    ensures |u| < |t| ==> ([c] + t)[|[c] + u|] == t[|u|]
  {
  }

  /** Splitting on `d`, keeping the first `k` pieces and rejoining with `d`
      leaves exactly the text before the `k`-th `d`. */
  lemma {:induction false} KeepPiecesIsUpToNth(s: string, d: char, k: nat)
    ensures Join(Take(Split(s, d), k), d) == UpToNth(s, d, k)
    decreases |s|
  {
    if s == [] || k == 0 {
    } else if s[0] == d {
      KeepPiecesIsUpToNth(s[1..], d, k - 1);
      KeepAfterSeparator(s, d, k);
    } else {
      KeepPiecesIsUpToNth(s[1..], d, k);
      KeepAfterOther(s, d, k);
    }
  }

  /** The step of `KeepPiecesIsUpToNth` for a string that starts with `d`. */
  lemma KeepAfterSeparator(s: string, d: char, k: nat)
    requires s != [] && s[0] == d && k >= 1
    requires Join(Take(Split(s[1..], d), k - 1), d) == UpToNth(s[1..], d, k - 1)
    ensures Join(Take(Split(s, d), k), d) == UpToNth(s, d, k)
  {
    var rest := Split(s[1..], d);
    assert Split(s, d) == [[]] + rest;
    if k > 1 {
      var kept := Take(rest, k - 1);
      assert |kept| >= 1;
      assert Take(Split(s, d), k) == [[]] + kept;
      assert ([[]] + kept)[1..] == kept;
      assert Join([[]] + kept, d) == [] + [d] + Join(kept, d);
      assert UpToNth(s, d, k) == [d] + UpToNth(s[1..], d, k - 1);
    } else {
      assert Take(Split(s, d), k) == [[]];
      assert UpToNth(s, d, k) == [];
    }
  }

  /** The step of `KeepPiecesIsUpToNth` for a string that starts with a
      character other than `d`. */
  lemma KeepAfterOther(s: string, d: char, k: nat)
    requires s != [] && s[0] != d && k >= 1
    requires Join(Take(Split(s[1..], d), k), d) == UpToNth(s[1..], d, k)
    ensures Join(Take(Split(s, d), k), d) == UpToNth(s, d, k)
  {
    var rest := Split(s[1..], d);
    assert Split(s, d) == [[s[0]] + rest[0]] + rest[1..];
    var tail := Take(rest[1..], k - 1);
    assert Take(Split(s, d), k) == [[s[0]] + rest[0]] + tail;
    assert Take(rest, k) == [rest[0]] + tail;
    JoinConsHead(s[0], rest[0], tail, d);
    assert UpToNth(s, d, k) == [s[0]] + UpToNth(s[1..], d, k);
  }

  /** Scanning a `d`-free piece and the `d` after it: with one occurrence to go
      the scan stops before that `d`, otherwise it keeps both and goes on. */
  lemma UpToNthPiece(p: string, rest: string, d: char, k: nat)
    requires d !in p && k >= 1
    ensures UpToNth(p + [d] + rest, d, k) == if k == 1 then p else p + [d] + UpToNth(rest, d, k - 1)
  {
    UpToNthOver(p, [d] + rest, d, k);
    assert p + [d] + rest == p + ([d] + rest);
    assert ([d] + rest)[1..] == rest;
  }

  /** Scanning past a `d`-free piece keeps it and leaves the count alone. */
  lemma {:induction false} UpToNthOver(p: string, s: string, d: char, k: nat)
    requires d !in p && k >= 1
    ensures UpToNth(p + s, d, k) == p + UpToNth(s, d, k)
    decreases |p|
  {
    if p != [] {
      var ps := p + s;
      assert ps[0] == p[0] && ps[1..] == p[1..] + s;
      UpToNthOver(p[1..], s, d, k);
      assert [p[0]] + (p[1..] + UpToNth(s, d, k)) == p + UpToNth(s, d, k);
    } else {
      assert p + s == s;
    }
  }
}
