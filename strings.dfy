/**
 * String operations of the browser client, with the semantics of the
 * JavaScript built-ins they stand for (`String.prototype.split` with a
 * one-character separator, `Array.prototype.join`, `filter(Boolean)` on an
 * array of strings, and `toUpperCase` restricted to ASCII).
 */
module Strings {

  datatype Option<+T> = None | Some(value: T)

  /**
   * An optional string read as text, as `email || ""` and `textContent =
   * value` both do: a missing value is the empty text.
   */
  function OrEmpty(v: Option<string>): (s: string)
    ensures s == [] <==> v.None? || v.value == []
    ensures s != [] ==> v == Some(s)
  {
    match v
    case None => []
    case Some(x) => x
  }

  /** ASCII upper-casing of one character: `a`..`z` become `A`..`Z`, every other character is kept. */
  function Upper(c: char): char
  {
    if 'a' <= c <= 'z' then (c as int - 32) as char else c
  }

  /** `toUpperCase` on a string, one character at a time. */
  function UpperString(s: string): (r: string)
    ensures |r| == |s|
    ensures forall i :: 0 <= i < |s| ==> r[i] == Upper(s[i])
  {
    seq(|s|, i requires 0 <= i < |s| => Upper(s[i]))
  }

  /** Upper-casing an upper-cased character changes nothing. */
  lemma UpperIdempotent(c: char)
    ensures Upper(Upper(c)) == Upper(c)
  {
  }

  /** A character that is not an ASCII letter is produced by upper-casing only from itself. */
  lemma UpperKeepsNonLetters(c: char, x: char)
    requires !('A' <= x <= 'Z') && !('a' <= x <= 'z')
    ensures Upper(c) == x <==> c == x
  {
  }

  /**
   * `s.split(d)`: the pieces of `s` between occurrences of `d`, in order.
   * There is always at least one piece (`"".split(d)` is `[""]`), and
   * adjacent, leading or trailing separators give empty pieces.
   */
  function Split(s: string, d: char): (parts: seq<string>)
    ensures |parts| >= 1
    ensures forall i :: 0 <= i < |parts| ==> d !in parts[i]
    decreases |s|
  {
    if s == [] then [[]]
    else
      var rest := Split(s[1..], d);
      if s[0] == d then [[]] + rest
      else [[s[0]] + rest[0]] + rest[1..]
  }

  /** `ws.join([d])`: the pieces with one `d` between neighbours. */
  function Join(ws: seq<string>, d: char): (r: string)
    ensures ws == [] ==> r == []
    ensures |ws| == 1 ==> r == ws[0]
    ensures |ws| >= 1 ==> ws[0] <= r
    ensures |ws| >= 2 ==> |r| > |ws[0]| && r[|ws[0]|] == d
  {
    if ws == [] then []
    else if |ws| == 1 then ws[0]
    else ws[0] + [d] + Join(ws[1..], d)
  }

  /** `ws.filter(Boolean)`: the non-empty strings of `ws`, in order. */
  function NonEmpty(ws: seq<string>): (r: seq<string>)
    ensures |r| <= |ws|
    ensures forall i :: 0 <= i < |r| ==> r[i] != []
    ensures forall w :: w in r <==> w in ws && w != []
  {
    if ws == [] then []
    else if ws[0] == [] then NonEmpty(ws[1..])
    else [ws[0]] + NonEmpty(ws[1..])
  }

  /** Filtering a concatenation filters each part and keeps their order. */
  lemma {:induction false} NonEmptyAppend(a: seq<string>, b: seq<string>)
    ensures NonEmpty(a + b) == NonEmpty(a) + NonEmpty(b)
    decreases |a|
  {
    if a == [] {
      assert a + b == b;
    } else {
      assert (a + b)[0] == a[0] && (a + b)[1..] == a[1..] + b;
      NonEmptyAppend(a[1..], b);
    }
  }

  /** Filtering one string keeps it exactly when it is non-empty. */
  lemma NonEmptySingle(w: string)
    ensures NonEmpty([w]) == if w == [] then [] else [w]
  {
  }

  /** Joining the pieces of a split puts the string back together. */
  lemma {:induction false} JoinSplit(s: string, d: char)
    ensures Join(Split(s, d), d) == s
    decreases |s|
  {
    if s != [] {
      var rest := Split(s[1..], d);
      JoinSplit(s[1..], d);
      if s[0] == d {
        assert ([[]] + rest)[1..] == rest;
      } else if |rest| > 1 {
        assert ([[s[0]] + rest[0]] + rest[1..])[1..] == rest[1..];
        assert Join(rest, d) == rest[0] + [d] + Join(rest[1..], d);
      }
    }
  }

  /** A string that does not contain the separator splits into itself alone. */
  lemma {:induction false} SplitNoSeparator(a: string, d: char)
    requires d !in a
    ensures Split(a, d) == [a]
    decreases |a|
  {
    if a != [] {
      SplitNoSeparator(a[1..], d);
      assert [a[0]] + a[1..] == a;
    }
  }

  /** The first piece of `a + [d] + b`, when `a` has no `d`, is `a`; the rest is the split of `b`. */
  lemma {:induction false} SplitAtFirst(a: string, d: char, b: string)
    requires d !in a
    ensures Split(a + [d] + b, d) == [a] + Split(b, d)
    decreases |a|
  {
    var s := a + [d] + b;
    if a == [] {
      assert s[1..] == b;
    } else {
      assert s[1..] == a[1..] + [d] + b;
      SplitAtFirst(a[1..], d, b);
      assert [a[0]] + a[1..] == a;
    }
  }

  /** Splitting a join of separator-free pieces gives the pieces back. */
  lemma {:induction false} SplitJoin(ws: seq<string>, d: char)
    requires |ws| >= 1
    requires forall i :: 0 <= i < |ws| ==> d !in ws[i]
    ensures Split(Join(ws, d), d) == ws
    decreases |ws|
  {
    if |ws| == 1 {
      SplitNoSeparator(ws[0], d);
    } else {
      SplitJoin(ws[1..], d);
      SplitAtFirst(ws[0], d, Join(ws[1..], d));
      assert [ws[0]] + ws[1..] == ws;
    }
  }

  /** Filtering a sequence of non-empty strings keeps all of them. */
  lemma {:induction false} NonEmptyKeepsAll(ws: seq<string>)
    requires forall i :: 0 <= i < |ws| ==> ws[i] != []
    ensures NonEmpty(ws) == ws
    decreases |ws|
  {
    if ws != [] {
      NonEmptyKeepsAll(ws[1..]);
      assert [ws[0]] + ws[1..] == ws;
    }
  }

  /** `x` occurs in a join only if it is the separator or occurs in one of the pieces. */
  lemma {:induction false} JoinAvoids(ws: seq<string>, d: char, x: char)
    requires x != d
    requires forall i :: 0 <= i < |ws| ==> x !in ws[i]
    ensures x !in Join(ws, d)
    decreases |ws|
  {
    if |ws| > 1 {
      JoinAvoids(ws[1..], d, x);
    }
  }

  /**
   * No space at either end and never two spaces in a row: the shape of
   * non-empty words joined by exactly one space.
   */
  predicate SingleSpaced(s: string)
  {
    (s != [] ==> s[0] != ' ' && s[|s| - 1] != ' ') &&
    forall i :: 0 <= i < |s| - 1 && s[i] == ' ' ==> s[i + 1] != ' '
  }

  /** Non-empty, space-free words joined by single spaces form a single-spaced, non-empty string. */
  lemma {:induction false} JoinSingleSpaced(ws: seq<string>)
    requires |ws| >= 1
    requires forall i :: 0 <= i < |ws| ==> ws[i] != [] && ' ' !in ws[i]
    ensures SingleSpaced(Join(ws, ' ')) && Join(ws, ' ') != []
    decreases |ws|
  {
    if |ws| > 1 {
      JoinSingleSpaced(ws[1..]);
      var a, b := ws[0], Join(ws[1..], ' ');
      var s := a + [' '] + b;
      forall i | 0 <= i < |s| - 1 && s[i] == ' '
        ensures s[i + 1] != ' '
      {
        if i > |a| {
          assert s[i] == b[i - |a| - 1] && s[i + 1] == b[i - |a|];
        }
      }
    }
  }
}
