/**
 * Byte strings and the PHP string primitives the core relies on:
 * `explode` (with and without a limit), `implode`, `str_replace` and `substr`.
 * PHP strings are byte strings, so every string of the model is a `Bytes`.
 */
module Bytes {

  newtype byte = x: int | 0 <= x < 256

  type Bytes = seq<byte>

  const PIPE: byte := 124       // '|'
  const SLASH: byte := 47       // '/'
  const APOSTROPHE: byte := 39  // '\''

  /** The bytes of an ASCII string literal (used to write examples readably). */
  function Ascii(s: string): (r: Bytes)
    ensures |r| == |s|
  {
    if s == [] then [] else [if s[0] as int < 256 then s[0] as int as byte else 0] + Ascii(s[1..])
  }

  lemma {:induction false} AsciiConcat(a: string, b: string)
    ensures Ascii(a + b) == Ascii(a) + Ascii(b)
  {
    if a != [] {
      assert (a + b)[0] == a[0];
      assert (a + b)[1..] == a[1..] + b;
      AsciiConcat(a[1..], b);
    } else {
      assert a + b == b;
    }
  }

  /** A character absent from the text gives a byte absent from its encoding (NUL stands for wide characters). */
  lemma {:induction false} AsciiExcludes(s: string, c: char)
    requires c !in s && 0 < c as int < 256
    ensures c as int as byte !in Ascii(s)
  {
    if s != [] {
      assert s[0] != c;
      assert c !in s[1..];
      AsciiExcludes(s[1..], c);
    }
  }

  /** True when `pat` occurs in `s` starting at position `i`. */
  predicate OccursAt(s: Bytes, pat: Bytes, i: nat)
  {
    i + |pat| <= |s| && s[i..i + |pat|] == pat
  }

  /** True when `pat` occurs anywhere in `s`. */
  predicate Contains(s: Bytes, pat: Bytes)
  {
    exists i :: 0 <= i <= |s| && OccursAt(s, pat, i)
  }

  /** The position of the first `b` in `s`. */
  function IndexOf(s: Bytes, b: byte): (i: nat)
    requires b in s
    ensures i < |s| && s[i] == b && b !in s[..i]
  {
    if s[0] == b then 0 else 1 + IndexOf(s[1..], b)
  }

  /** A position holding `b` with no `b` before it is IndexOf. */
  lemma {:induction false} IndexOfFirst(s: Bytes, b: byte, i: nat)
    requires i < |s| && s[i] == b && b !in s[..i]
    ensures b in s && IndexOf(s, b) == i
  {
    if i > 0 {
      assert s[0] == s[..i][0];
      assert s[1..][..i - 1] == s[..i][1..];
      IndexOfFirst(s[1..], b, i - 1);
    }
  }

  /** PHP `explode($sep, $s)`: the pieces of `s` between occurrences of `sep`. */
  function Split(s: Bytes, sep: byte): (parts: seq<Bytes>)
    ensures |parts| >= 1
    decreases |s|
  {
    if sep !in s then [s]
    else
      var i := IndexOf(s, sep);
      [s[..i]] + Split(s[i + 1..], sep)
  }

  /** PHP `explode($sep, $s, $limit)` for a positive limit: at most `limit` pieces, the last holding the rest. */
  function SplitLimit(s: Bytes, sep: byte, limit: nat): (parts: seq<Bytes>)
    requires limit >= 1
    ensures 1 <= |parts| <= limit
    decreases |s|
  {
    if limit == 1 || sep !in s then [s]
    else
      var i := IndexOf(s, sep);
      [s[..i]] + SplitLimit(s[i + 1..], sep, limit - 1)
  }

  /** PHP `implode($sep, $parts)` for a non-empty list. */
  function Join(parts: seq<Bytes>, sep: byte): (s: Bytes)
    requires |parts| >= 1
  {
    if |parts| == 1 then parts[0] else parts[0] + [sep] + Join(parts[1..], sep)
  }

  /** No piece holds the separator. */
  predicate SeparatorFree(parts: seq<Bytes>, sep: byte)
  {
    forall k :: 0 <= k < |parts| ==> sep !in parts[k]
  }

  /** Splitting never leaves the separator inside a piece. */
  lemma {:induction false} SplitPiecesAreSeparatorFree(s: Bytes, sep: byte)
    ensures SeparatorFree(Split(s, sep), sep)
    decreases |s|
  {
    if sep in s {
      var i := IndexOf(s, sep);
      SplitPiecesAreSeparatorFree(s[i + 1..], sep);
    }
  }

  /** Joining the pieces of a split gives the string back. */
  lemma {:induction false} JoinSplit(s: Bytes, sep: byte)
    ensures Join(Split(s, sep), sep) == s
    decreases |s|
  {
    if sep in s {
      var i := IndexOf(s, sep);
      JoinSplit(s[i + 1..], sep);
      AroundIndex(s, i);
    }
  }

  /** Splitting a join of separator-free pieces gives the pieces back. */
  lemma {:induction false} SplitJoin(parts: seq<Bytes>, sep: byte)
    requires |parts| >= 1 && SeparatorFree(parts, sep)
    ensures Split(Join(parts, sep), sep) == parts
  {
    if |parts| > 1 {
      var s := Join(parts, sep);
      var rest := Join(parts[1..], sep);
      var i := |parts[0]|;
      assert s == parts[0] + [sep] + rest;
      assert s[i] == sep && s[..i] == parts[0] && s[i + 1..] == rest;
      assert sep !in parts[0];
      SplitAt(s, sep, i);
      assert SeparatorFree(parts[1..], sep) by {
        forall k | 0 <= k < |parts[1..]| ensures sep !in parts[1..][k] {
          assert parts[1..][k] == parts[k + 1];
        }
      }
      SplitJoin(parts[1..], sep);
      assert parts == [parts[0]] + parts[1..];
    }
  }

  /** The first separator at position `i` cuts off the first piece. */
  lemma SplitAt(s: Bytes, sep: byte, i: nat)
    requires i < |s| && s[i] == sep && sep !in s[..i]
    ensures Split(s, sep) == [s[..i]] + Split(s[i + 1..], sep)
  {
    IndexOfFirst(s, sep, i);
  }

  /** The pieces from position `limit - 1` on joined back into one, when there are more than `limit`. */
  function FoldFrom(full: seq<Bytes>, sep: byte, limit: nat): seq<Bytes>
    requires limit >= 1
  {
    if |full| <= limit then full else full[..limit - 1] + [Join(full[limit - 1..], sep)]
  }

  /** PHP's limited explode is the full split with the pieces from position `limit - 1` on joined back. */
  lemma SplitLimitIsSplit(s: Bytes, sep: byte, limit: nat)
    requires limit >= 1
    ensures SplitLimit(s, sep, limit) == FoldFrom(Split(s, sep), sep, limit)
  {
    if |Split(s, sep)| <= limit {
      SplitLimitShort(s, sep, limit);
    } else {
      SplitLimitLong(s, sep, limit);
    }
  }

  /** With at most `limit` pieces the limited explode is the full one. */
  lemma {:induction false} SplitLimitShort(s: Bytes, sep: byte, limit: nat)
    requires limit >= 1 && |Split(s, sep)| <= limit
    ensures SplitLimit(s, sep, limit) == Split(s, sep)
    decreases |s|
  {
    if sep in s {
      var head, rest := SplitLimitStep(s, sep, limit);
      SplitLimitShort(rest, sep, limit - 1);
    }
  }

  /** With more than `limit` pieces the last limited piece is the join of the remaining ones. */
  lemma {:induction false} SplitLimitLong(s: Bytes, sep: byte, limit: nat)
    requires limit >= 1 && |Split(s, sep)| > limit
    ensures SplitLimit(s, sep, limit) == Split(s, sep)[..limit - 1] + [Join(Split(s, sep)[limit - 1..], sep)]
    decreases |s|
  {
    if limit == 1 {
      SplitLimitOne(s, sep);
    } else {
      var full := Split(s, sep);
      var head, rest := SplitLimitStep(s, sep, limit);
      var tail := Split(rest, sep);
      SplitLimitLong(rest, sep, limit - 1);
      var front, last := tail[..limit - 2], Join(tail[limit - 2..], sep);
      assert full[..limit - 1] == [head] + front;
      assert full[limit - 1..] == tail[limit - 2..];
      ConsSnoc(head, front, last);
    }
  }

  /** A limit of one keeps the whole string, the join of all its pieces. */
  lemma SplitLimitOne(s: Bytes, sep: byte)
    ensures SplitLimit(s, sep, 1) == Split(s, sep)[..0] + [Join(Split(s, sep)[0..], sep)]
  {
    JoinSplit(s, sep);
    DropNothing(Split(s, sep));
  }

  lemma ConsSnoc<T>(head: T, front: seq<T>, last: T)
    ensures [head] + (front + [last]) == ([head] + front) + [last]
  {
  }

  /**
   * One step of both splits at the first separator, for a limit of at least two
   * and a split of at least two pieces (which holds exactly when the separator occurs).
   */
  lemma SplitLimitStep(s: Bytes, sep: byte, limit: nat) returns (head: Bytes, rest: Bytes)
    requires limit >= 2 && (sep in s || |Split(s, sep)| > 1)
    ensures |rest| < |s|
    ensures Split(s, sep) == [head] + Split(rest, sep)
    ensures SplitLimit(s, sep, limit) == [head] + SplitLimit(rest, sep, limit - 1)
  {
    var i := IndexOf(s, sep);
    head, rest := s[..i], s[i + 1..];
  }

  /**
   * PHP `str_replace($pat, $rep, $s)` for one pattern: scan left to right, replace every
   * non-overlapping occurrence, never rescan replaced text.
   */
  function ReplaceAll(s: Bytes, pat: Bytes, rep: Bytes): (r: Bytes)
    requires |pat| > 0
    decreases |s|
  {
    if |s| < |pat| then s
    else if s[..|pat|] == pat then rep + ReplaceAll(s[|pat|..], pat, rep)
    else [s[0]] + ReplaceAll(s[1..], pat, rep)
  }

  /** Replacing a pattern by something no longer never makes the string longer. */
  lemma {:induction false} ReplaceAllShrinks(s: Bytes, pat: Bytes, rep: Bytes)
    requires |pat| > 0 && |rep| <= |pat|
    ensures |ReplaceAll(s, pat, rep)| <= |s|
    decreases |s|
  {
    if |s| < |pat| {
    } else if s[..|pat|] == pat {
      ReplaceAllShrinks(s[|pat|..], pat, rep);
    } else {
      ReplaceAllShrinks(s[1..], pat, rep);
    }
  }

  /** A string without the pattern is left as it is. */
  lemma {:induction false} ReplaceAllAbsent(s: Bytes, pat: Bytes, rep: Bytes)
    requires |pat| > 0 && !Contains(s, pat)
    ensures ReplaceAll(s, pat, rep) == s
    decreases |s|
  {
    if |s| < |pat| {
    } else {
      assert !OccursAt(s, pat, 0);
      assert !Contains(s[1..], pat) by {
        forall i | 0 <= i <= |s[1..]| ensures !OccursAt(s[1..], pat, i) {
          assert !OccursAt(s, pat, i + 1);
        }
      }
      ReplaceAllAbsent(s[1..], pat, rep);
    }
  }

  /** PHP `substr($s, 0, $n)` for a non-negative `n`: the first `n` bytes, or all of them. */
  function Prefix(s: Bytes, n: nat): (r: Bytes)
    ensures |r| == if |s| <= n then |s| else n
    ensures r == s[..|r|]
  {
    if |s| <= n then s else s[..n]
  }

  /** A non-empty sequence is its front followed by its last element. */
  lemma SplitLast<T>(s: seq<T>)
    requires |s| > 0
    ensures s == s[..|s| - 1] + [s[|s| - 1]]
  {
  }

  lemma DropNothing<T>(s: seq<T>)
    ensures s[0..] == s
  {
  }

  lemma TakeAll<T>(s: seq<T>)
    ensures s[..|s|] == s
  {
  }

  lemma TakeOneMore<T>(s: seq<T>, k: int)
    requires 0 <= k < |s|
    ensures s[..k + 1] == s[..k] + [s[k]]
  {
  }

  /** A sequence is what comes before position `i`, the element there and what comes after. */
  lemma AroundIndex<T>(s: seq<T>, i: nat)
    requires i < |s|
    ensures s == s[..i] + [s[i]] + s[i + 1..]
  {
  }
}
