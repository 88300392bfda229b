/** The java.lang.String operations the deployer relies on: prefix and
    suffix tests, `contains`, `replace` (every occurrence, left to right)
    and splitting on a single separator character. */
module Text {

  /** String.startsWith */
  predicate StartsWith(s: string, prefix: string) {
    |prefix| <= |s| && s[..|prefix|] == prefix
  }

  /** String.endsWith */
  predicate EndsWith(s: string, suffix: string) {
    |suffix| <= |s| && s[|s| - |suffix|..] == suffix
  }

  /** String.contains: `t` occurs in `s` at some position. */
  predicate Contains(s: string, t: string)
    decreases |s|
  {
    StartsWith(s, t) || (|s| > 0 && Contains(s[1..], t))
  }

  /** `s` ends with `t`, and that final occurrence is the only one. */
  predicate OccursOnlyAtEnd(s: string, t: string) {
    |t| > 0 && EndsWith(s, t) && !Contains(s[..|s| - 1], t)
  }

  /** String.replace(CharSequence, CharSequence): scans left to right and
      replaces every non-overlapping occurrence of `target`. */
  function Replace(s: string, target: string, replacement: string): (r: string)
    requires |target| > 0
    ensures !Contains(s, target) ==> r == s
    decreases |s|
  {
    if |s| < |target| then s
    else if s[..|target|] == target then replacement + Replace(s[|target|..], target, replacement)
    else [s[0]] + Replace(s[1..], target, replacement)
  }

  /** Replacing in `target + rest`, when `rest` holds no occurrence, rewrites
      only the leading occurrence. */
  lemma {:induction false} ReplaceLeading(target: string, rest: string, replacement: string)
    requires |target| > 0 && !Contains(rest, target)
    ensures Replace(target + rest, target, replacement) == replacement + rest
  {
    var s := target + rest;
    assert s[..|target|] == target;
    assert s[|target|..] == rest;
  }

  /** The two halves of a concatenation. */
  lemma Halves(a: string, b: string)
    ensures (a + b)[..|a|] == a && (a + b)[|a|..] == b
  {
  }

  /** The empty string is neutral for concatenation. */
  lemma Unit(s: string)
    ensures "" + s == s && s + "" == s
  {
  }

  /** Replacing a target that occurs only at the end of `s` rewrites exactly
      that suffix. */
  lemma {:induction false} ReplaceTrailing(s: string, target: string, replacement: string)
    requires OccursOnlyAtEnd(s, target)
    ensures Replace(s, target, replacement) == s[..|s| - |target|] + replacement
    decreases |s|
  {
    if |s| == |target| {
      ReplaceWhole(s, target, replacement);
    } else {
      NotAtStart(s, s[..|s| - 1], target);
      TailOccursOnlyAtEnd(s, target);
      ReplaceTrailing(s[1..], target, replacement);
      ReplaceSkip(s, target, replacement);
      ConsPrefix(s, |s| - |target|, replacement);
    }
  }

  /** Removing every occurrence of a leading target that occurs nowhere
      in the rest leaves the rest. */
  lemma StripLeading(target: string, rest: string)
    requires |target| > 0 && !Contains(rest, target)
    ensures Replace(target + rest, target, "") == rest
  {
    ReplaceLeading(target, rest, "");
    Unit(rest);
  }

  /** Removing every occurrence of a target found only at the end of
      `stem + target` leaves the stem. */
  lemma StripTrailing(stem: string, target: string)
    requires OccursOnlyAtEnd(stem + target, target)
    ensures Replace(stem + target, target, "") == stem
  {
    ReplaceTrailing(stem + target, target, "");
    Halves(stem, target);
    Unit(stem);
  }

  /** Helper for ReplaceTrailing: dropping the first character keeps the
      only occurrence at the end. */
  lemma TailOccursOnlyAtEnd(s: string, t: string)
    requires OccursOnlyAtEnd(s, t) && |s| > |t| && !Contains(s[..|s| - 1][1..], t)
    ensures OccursOnlyAtEnd(s[1..], t)
  {
    var tail := s[1..];
    DropFirstThenLast(s);
    assert !Contains(tail[..|tail| - 1], t);
    SuffixOfTail(s, |t|);
    assert EndsWith(tail, t);
  }

  /** Dropping the first and then the last character, in either order. */
  lemma DropFirstThenLast(s: string)
    requires |s| > 1
    ensures s[1..][..|s| - 2] == s[..|s| - 1][1..]
  {
  }

  /** A suffix shorter than `s` is a suffix of its tail too. */
  lemma SuffixOfTail(s: string, k: nat)
    requires k < |s|
    ensures s[1..][|s| - 1 - k..] == s[|s| - k..]
  {
  }

  /** Helper for ReplaceTrailing: no occurrence at the front, so the first
      character is kept. */
  lemma ReplaceSkip(s: string, target: string, replacement: string)
    requires 0 < |target| <= |s| && s[..|target|] != target
    ensures Replace(s, target, replacement) == [s[0]] + Replace(s[1..], target, replacement)
  {
  }

  /** Helper for ReplaceTrailing: a prefix is the first character followed
      by the matching prefix of the rest. */
  lemma ConsPrefix(s: string, k: nat, r: string)
    requires 0 < k <= |s|
    ensures [s[0]] + (s[1..][..k - 1] + r) == s[..k] + r
  {
    assert [s[0]] + s[1..][..k - 1] == s[..k];
  }

  /** Helper for ReplaceTrailing: a string that is the target is replaced
      whole. */
  lemma ReplaceWhole(s: string, target: string, replacement: string)
    requires 0 < |target| == |s| && EndsWith(s, target)
    ensures Replace(s, target, replacement) == s[..0] + replacement
  {
    assert s[..|target|] == target;
    assert s[|target|..] == [];
  }

  /** Helper for ReplaceTrailing: no occurrence at the front of `s` when its
      first |s| - 1 characters hold none. */
  lemma NotAtStart(s: string, init: string, target: string)
    requires |s| > |target| && init == s[..|s| - 1] && !Contains(init, target)
    ensures s[..|target|] != target && !Contains(init[1..], target)
  {
    assert init[..|target|] == s[..|target|];
  }

  /** The pieces of `s` between occurrences of `sep`, empty pieces included. */
  function Pieces(s: string, sep: char): (r: seq<string>)
    ensures |r| >= 1
    ensures forall i :: 0 <= i < |r| ==> sep !in r[i]
    decreases |s|
  {
    if |s| == 0 then [""]
    else
      var rest := Pieces(s[1..], sep);
      if s[0] == sep then [""] + rest else [[s[0]] + rest[0]] + rest[1..]
  }

  /** The pieces glued back together with `sep` between neighbours. */
  function JoinWith(parts: seq<string>, sep: char): string
    decreases |parts|
  {
    if |parts| == 0 then ""
    else if |parts| == 1 then parts[0]
    else parts[0] + [sep] + JoinWith(parts[1..], sep)
  }

  /** Joining the pieces of a string restores the string. */
  lemma {:induction false} JoinOfPieces(s: string, sep: char)
    ensures JoinWith(Pieces(s, sep), sep) == s
    decreases |s|
  {
    if |s| > 0 {
      JoinOfPieces(s[1..], sep);
      var rest := Pieces(s[1..], sep);
      if s[0] != sep {
        var r := [[s[0]] + rest[0]] + rest[1..];
        assert r[1..] == rest[1..];
        if |rest| > 1 {
          assert JoinWith(rest, sep) == rest[0] + [sep] + JoinWith(rest[1..], sep);
        }
      } else {
        assert ([""] + rest)[1..] == rest;
      }
    }
  }

  /** A string without the separator is a single piece. */
  lemma {:induction false} PiecesWithoutSep(s: string, sep: char)
    requires sep !in s
    ensures Pieces(s, sep) == [s]
    decreases |s|
  {
    if |s| > 0 {
      PiecesWithoutSep(s[1..], sep);
      assert [s[0]] + s[1..] == s;
    }
  }

  /** A separator closes the first piece. */
  lemma {:induction false} PiecesAfterSep(head: string, sep: char, tail: string)
    requires sep !in head
    ensures Pieces(head + [sep] + tail, sep) == [head] + Pieces(tail, sep)
    decreases |head|
  {
    var s := head + [sep] + tail;
    if |head| == 0 {
      assert s[1..] == tail;
    } else {
      assert s[1..] == head[1..] + [sep] + tail;
      PiecesAfterSep(head[1..], sep, tail);
      assert [head[0]] + head[1..] == head;
    }
  }

  /** Splitting a join of separator-free parts gives the parts back. */
  lemma {:induction false} PiecesOfJoin(parts: seq<string>, sep: char)
    requires |parts| >= 1
    requires forall i :: 0 <= i < |parts| ==> sep !in parts[i]
    ensures Pieces(JoinWith(parts, sep), sep) == parts
    decreases |parts|
  {
    if |parts| == 1 {
      PiecesWithoutSep(parts[0], sep);
    } else {
      PiecesOfJoin(parts[1..], sep);
      PiecesAfterSep(parts[0], sep, JoinWith(parts[1..], sep));
      assert [parts[0]] + parts[1..] == parts;
    }
  }

  /** The pieces with the trailing empty ones removed. */
  function DropTrailingEmpty(parts: seq<string>): (r: seq<string>)
    ensures |r| <= |parts| && r == parts[..|r|]
    ensures |r| > 0 ==> r[|r| - 1] != ""
    ensures forall i :: |r| <= i < |parts| ==> parts[i] == ""
    decreases |parts|
  {
    if |parts| == 0 then []
    else if parts[|parts| - 1] == "" then DropTrailingEmpty(parts[..|parts| - 1])
    else parts
  }

  /** String.split(" "): the pieces between single spaces; when the string
      holds a space, trailing empty pieces are removed. */
  function SplitOnSpace(s: string): (r: seq<string>)
    ensures ' ' !in s ==> r == [s]
    ensures forall i :: 0 <= i < |r| ==> ' ' !in r[i]
  {
    var parts := Pieces(s, ' ');
    if ' ' !in s then PiecesWithoutSep(s, ' '); parts
    else if |parts| == 1 then parts
    else DropTrailingEmpty(parts)
  }

  /** Splitting a space-joined list of non-empty, space-free words gives
      the words back. */
  lemma SplitOnSpaceOfJoin(words: seq<string>)
    requires |words| >= 1
    requires forall i :: 0 <= i < |words| ==> ' ' !in words[i] && words[i] != ""
    ensures SplitOnSpace(JoinWith(words, ' ')) == words
  {
    PiecesOfJoin(words, ' ');
    var s := JoinWith(words, ' ');
    if ' ' !in s {
      PiecesWithoutSep(s, ' ');
    }
  }
}
