/**
 * Display names and initials derived from a participant's email address
 * (`formatNameFromEmail` and `getInitials` of the activity board client).
 *
 * The name is computed as the client computes it, up to the ASCII-only
 * case mapping of `Upper`: the text before the first `@`, every run of
 * `.`, `_`, `-`, `+` replaced by one space, split on spaces, empty pieces
 * dropped, each piece capitalised, pieces joined by one space. `Words` is
 * an independent description of the same pieces (maximal runs of
 * characters that are neither separators nor spaces), and the contracts
 * of `FormatNameFromEmail` and `GetInitials` are stated in its terms.
 */
module NameFormat {
  import opened Strings

  /** The characters of the pattern `[._\-+]`. */
  predicate IsSeparator(c: char)
  {
    c == '.' || c == '_' || c == '-' || c == '+'
  }

  /** Characters that end a word: a separator or a space. */
  predicate IsDelimiter(c: char)
  {
    IsSeparator(c) || c == ' '
  }

  /** `(email || "").split("@")[0]`: the text before the first `@`. */
  function LocalPart(email: Option<string>): (r: string)
    ensures '@' !in r
  {
    Split(OrEmpty(email), '@')[0]
  }

  /** Drops the separators at the front of `s` (one greedy match of `[._\-+]+`). */
  function DropSeparators(s: string): (r: string)
    ensures |r| <= |s| && r == s[|s| - |r|..]
    ensures r == [] || !IsSeparator(r[0])
    ensures s != [] && IsSeparator(s[0]) ==> |r| < |s|
    decreases |s|
  {
    if s != [] && IsSeparator(s[0]) then DropSeparators(s[1..]) else s
  }

  /** `s.replace(/[._\-+]+/g, " ")`: every maximal run of separators becomes one space. */
  function CollapseSeparators(s: string): (r: string)
    ensures forall c :: c in r ==> !IsSeparator(c)
    ensures |r| <= |s|
    decreases |s|
  {
    if s == [] then []
    else
      var head, rest := if IsSeparator(s[0]) then ' ' else s[0], if IsSeparator(s[0]) then DropSeparators(s) else s[1..];
      [head] + CollapseSeparators(rest)
  }

  /** A string without separators comes back unchanged. */
  lemma {:induction false} CollapseKeepsPlain(s: string)
    requires forall i :: 0 <= i < |s| ==> !IsSeparator(s[i])
    ensures CollapseSeparators(s) == s
    decreases |s|
  {
    if s != [] {
      CollapseKeepsPlain(s[1..]);
      assert [s[0]] + s[1..] == s;
    }
  }

  /** Characters that are not separators are copied, in order, in front of what follows. */
  lemma {:induction false} CollapseKeepsPlainPrefix(a: string, t: string)
    requires forall i :: 0 <= i < |a| ==> !IsSeparator(a[i])
    ensures CollapseSeparators(a + t) == a + CollapseSeparators(t)
    decreases |a|
  {
    if a == [] {
      assert a + t == t;
    } else {
      assert (a + t)[0] == a[0] && (a + t)[1..] == a[1..] + t;
      CollapseKeepsPlainPrefix(a[1..], t);
      assert [a[0]] + a[1..] == a;
    }
  }

  /** A whole run of separators, however long, becomes exactly one space. */
  lemma {:induction false} CollapseRun(run: string, t: string)
    requires run != []
    requires forall i :: 0 <= i < |run| ==> IsSeparator(run[i])
    requires t == [] || !IsSeparator(t[0])
    ensures DropSeparators(run + t) == t
    ensures CollapseSeparators(run + t) == [' '] + CollapseSeparators(t)
    decreases |run|
  {
    var s := run + t;
    assert s[1..] == run[1..] + t;
    if |run| > 1 {
      CollapseRun(run[1..], t);
    } else {
      assert s[1..] == t;
    }
  }

  /** `w[0].toUpperCase() + w.slice(1)`. */
  function Capitalize(w: string): (r: string)
    requires w != []
    ensures |r| == |w| && r[0] == Upper(w[0]) && r[1..] == w[1..]
  {
    [Upper(w[0])] + w[1..]
  }

  /** `.map((w) => w[0].toUpperCase() + w.slice(1))` on non-empty words. */
  function CapitalizeAll(ws: seq<string>): (r: seq<string>)
    requires forall i :: 0 <= i < |ws| ==> ws[i] != []
    ensures |r| == |ws|
    ensures forall i :: 0 <= i < |ws| ==> r[i] == Capitalize(ws[i])
  {
    seq(|ws|, i requires 0 <= i < |ws| => Capitalize(ws[i]))
  }

  /**
   * `formatNameFromEmail(email)` (src/static/app.js:8-16): the capitalised
   * words of the local part, joined by single spaces.
   */
  function FormatNameFromEmail(email: Option<string>): (name: string)
    ensures name == Join(CapitalizeAll(Words(LocalPart(email))), ' ')
  {
    CollapseSplitIsWords(LocalPart(email));
    Join(CapitalizeAll(NonEmpty(Split(CollapseSeparators(LocalPart(email)), ' '))), ' ')
  }

  /**
   * `getInitials(email)` (src/static/app.js:19-29): `?` when the local part
   * has no word, the upper-cased first character of the only word, or
   * those of the first two words; words after the second are ignored.
   */
  function GetInitials(email: Option<string>): (initials: string)
    ensures var ws := Words(LocalPart(email));
      initials ==
        if |ws| == 0 then "?"
        else if |ws| == 1 then [Upper(ws[0][0])]
        else [Upper(ws[0][0]), Upper(ws[1][0])]
  {
    var parts := NonEmpty(Split(FormatNameFromEmail(email), ' '));
    FormatNameWords(email);
    UpperOfCapitalized(Words(LocalPart(email)));
    var initials :=
      if |parts| == 0 then "?"
      else if |parts| == 1 then [parts[0][0]]
      else [parts[0][0], parts[1][0]];
    UpperString(initials)
  }

  // ---------------------------------------------------------------------
  // Reference description of the words
  // ---------------------------------------------------------------------

  /** Length of the longest prefix of `s` without a delimiter. */
  function RunLength(s: string): (n: nat)
    ensures n <= |s|
    ensures forall i :: 0 <= i < n ==> !IsDelimiter(s[i])
    ensures n < |s| ==> IsDelimiter(s[n])
  {
    if s == [] || IsDelimiter(s[0]) then 0 else 1 + RunLength(s[1..])
  }

  /** A word: non-empty, with no delimiter in it. */
  predicate IsWord(w: string)
  {
    w != [] && forall j :: 0 <= j < |w| ==> !IsDelimiter(w[j])
  }

  /** The maximal runs of non-delimiter characters of `s`, left to right. */
  function Words(s: string): (ws: seq<string>)
    ensures forall i :: 0 <= i < |ws| ==> IsWord(ws[i])
    decreases |s|
  {
    if s == [] then []
    else if IsDelimiter(s[0]) then Words(s[1..])
    else
      var n := RunLength(s);
      [s[..n]] + Words(s[n..])
  }

  /** A character absent from `s` is absent from each of its words. */
  lemma {:induction false} WordsAvoid(s: string, x: char)
    requires x !in s
    ensures forall i :: 0 <= i < |Words(s)| ==> x !in Words(s)[i]
    decreases |s|
  {
    if s != [] {
      if IsDelimiter(s[0]) {
        WordsAvoid(s[1..], x);
      } else {
        var n := RunLength(s);
        assert x !in s[n..] && x !in s[..n];
        WordsAvoid(s[n..], x);
      }
    }
  }

  /** Leading separators contribute no word. */
  lemma {:induction false} WordsSkipSeparators(s: string)
    ensures Words(DropSeparators(s)) == Words(s)
    decreases |s|
  {
    if s != [] && IsSeparator(s[0]) {
      WordsSkipSeparators(s[1..]);
    }
  }

  /** A non-delimiter in front of a word-initial character extends the first word. */
  lemma WordsConsExtend(c: char, r: string)
    requires !IsDelimiter(c) && r != [] && !IsDelimiter(r[0])
    ensures Words([c] + r) == [[c] + Words(r)[0]] + Words(r)[1..]
  {
    var s := [c] + r;
    var n := RunLength(r);
    assert s[1..] == r;
    assert RunLength(s) == 1 + n;
    assert Words(r) == [r[..n]] + Words(r[n..]);
    assert s[..1 + n] == [c] + r[..n];
    assert s[1 + n..] == r[n..];
  }

  /** A non-delimiter before the end or before a delimiter is a word of its own. */
  lemma WordsConsStart(c: char, r: string)
    requires !IsDelimiter(c) && (r == [] || IsDelimiter(r[0]))
    ensures Words([c] + r) == [[c]] + Words(r)
  {
    var s := [c] + r;
    assert s[1..] == r;
    assert RunLength(s) == 1;
    assert s[..1] == [c];
  }

  /** A non-delimiter in front of `r` either extends the first word of `r` or starts a new one. */
  lemma WordsCons(c: char, r: string)
    requires !IsDelimiter(c)
    ensures Words([c] + r) ==
      if r != [] && !IsDelimiter(r[0]) then [[c] + Words(r)[0]] + Words(r)[1..]
      else [[c]] + Words(r)
  {
    if r != [] && !IsDelimiter(r[0]) {
      WordsConsExtend(c, r);
    } else {
      WordsConsStart(c, r);
    }
  }

  /** The words of a string after separator runs became spaces: `NonEmpty(Split(t, ' '))`. */
  function SpaceWords(t: string): seq<string>
  {
    NonEmpty(Split(t, ' '))
  }

  /** A leading space contributes no word. */
  lemma SpaceWordsSpace(t: string)
    ensures SpaceWords([' '] + t) == SpaceWords(t)
  {
  }

  /** `SpaceWords` grows like `Words` when a non-space is put in front. */
  lemma SpaceWordsCons(c: char, t: string)
    requires c != ' '
    ensures SpaceWords([c] + t) ==
      if t != [] && t[0] != ' ' then [[c] + SpaceWords(t)[0]] + SpaceWords(t)[1..]
      else [[c]] + SpaceWords(t)
  {
    var s := [c] + t;
    assert s[1..] == t;
    var parts := Split(t, ' ');
    assert Split(s, ' ') == [[c] + parts[0]] + parts[1..];
    assert ([[c] + parts[0]] + parts[1..])[1..] == parts[1..];
    assert SpaceWords(s) == [[c] + parts[0]] + NonEmpty(parts[1..]);
    if t != [] && t[0] != ' ' {
      assert parts[0] == [t[0]] + Split(t[1..], ' ')[0];
      assert SpaceWords(t) == [parts[0]] + NonEmpty(parts[1..]);
    } else if t == [] {
      assert parts == [[]] && parts[1..] == [];
      assert SpaceWords(t) == [];
      assert [c] + parts[0] == [c];
    } else {
      assert parts == [[]] + Split(t[1..], ' ');
      assert SpaceWords(t) == NonEmpty(parts[1..]);
      assert [c] + parts[0] == [c];
    }
  }

  /** The first character of the collapsed string is a space exactly when `s` starts with a delimiter. */
  lemma CollapseHead(s: string)
    requires s != []
    ensures CollapseSeparators(s) != []
    ensures CollapseSeparators(s)[0] == ' ' <==> IsDelimiter(s[0])
  {
  }

  /** Replacing separator runs, splitting on spaces and dropping empty pieces yields exactly `Words`. */
  lemma {:induction false} CollapseSplitIsWords(s: string)
    ensures SpaceWords(CollapseSeparators(s)) == Words(s)
    decreases |s|
  {
    if s == [] {
      assert Split([], ' ') == [[]];
    } else if IsSeparator(s[0]) {
      var d := DropSeparators(s);
      CollapseSplitIsWords(d);
      SpaceWordsSpace(CollapseSeparators(d));
      WordsSkipSeparators(s);
    } else if s[0] == ' ' {
      CollapseSplitIsWords(s[1..]);
      SpaceWordsSpace(CollapseSeparators(s[1..]));
    } else {
      var r := s[1..];
      assert s == [s[0]] + r;
      CollapseSplitIsWords(r);
      SpaceWordsCons(s[0], CollapseSeparators(r));
      if r != [] {
        CollapseHead(r);
      }
      WordsCons(s[0], r);
    }
  }

  /** Capitalising keeps a word a word, and keeps out every character that is not an ASCII letter. */
  lemma CapitalizeKeepsWord(w: string, x: char)
    requires IsWord(w) && x !in w
    requires !('A' <= x <= 'Z') && !('a' <= x <= 'z')
    ensures IsWord(Capitalize(w)) && x !in Capitalize(w)
  {
  }

  /** The capitalised words of the local part are words without `@`. */
  lemma NameWords(email: Option<string>)
    ensures forall w :: w in CapitalizeAll(Words(LocalPart(email))) ==> IsWord(w) && '@' !in w
  {
    var ws := Words(LocalPart(email));
    WordsAvoid(LocalPart(email), '@');
    forall i | 0 <= i < |ws|
      ensures IsWord(CapitalizeAll(ws)[i]) && '@' !in CapitalizeAll(ws)[i]
    {
      CapitalizeKeepsWord(ws[i], '@');
    }
  }

  // ---------------------------------------------------------------------
  // Properties of formatNameFromEmail
  // ---------------------------------------------------------------------

  /** A missing or empty address formats to the empty name. */
  lemma FormatNameOfNothing()
    ensures FormatNameFromEmail(None) == []
    ensures FormatNameFromEmail(Some([])) == []
  {
  }

  /** Only the text before the first `@` matters: whatever follows it never changes the name. */
  lemma {:induction false} FormatNameIgnoresDomain(local: string, domain: string)
    requires '@' !in local
    ensures LocalPart(Some(local + ['@'] + domain)) == local
    ensures FormatNameFromEmail(Some(local + ['@'] + domain)) == FormatNameFromEmail(Some(local))
  {
    SplitAtFirst(local, '@', domain);
    SplitNoSeparator(local, '@');
  }

  /**
   * The formatted name holds no separator, no `@`, no leading or trailing
   * space and no two spaces in a row; it is empty exactly when the local
   * part has no word.
   */
  lemma FormatNameShape(email: Option<string>)
    ensures forall i :: 0 <= i < |FormatNameFromEmail(email)| ==>
      !IsSeparator(FormatNameFromEmail(email)[i]) && FormatNameFromEmail(email)[i] != '@'
    ensures SingleSpaced(FormatNameFromEmail(email))
    ensures FormatNameFromEmail(email) == [] <==> Words(LocalPart(email)) == []
  {
    var cs := CapitalizeAll(Words(LocalPart(email)));
    NameWords(email);
    var r := FormatNameFromEmail(email);
    if cs != [] {
      JoinSingleSpaced(cs);
    }
    forall i | 0 <= i < |r|
      ensures !IsSeparator(r[i]) && r[i] != '@'
    {
      if IsSeparator(r[i]) || r[i] == '@' {
        JoinAvoids(cs, ' ', r[i]);
      }
    }
  }

  /**
   * Splitting the formatted name on spaces gives back one word per maximal
   * run of the local part, in order, each with its first character
   * upper-cased and the rest unchanged.
   */
  lemma {:induction false} FormatNameWords(email: Option<string>)
    ensures SpaceWords(FormatNameFromEmail(email)) == CapitalizeAll(Words(LocalPart(email)))
  {
    var cs := CapitalizeAll(Words(LocalPart(email)));
    NameWords(email);
    if cs == [] {
      assert Split([], ' ') == [[]];
    } else {
      SplitJoin(cs, ' ');
      NonEmptyKeepsAll(cs);
    }
  }

  // ---------------------------------------------------------------------
  // Properties of getInitials
  // ---------------------------------------------------------------------

  /** Upper-casing the first character of a capitalised word gives the upper-cased first character of the word. */
  lemma UpperOfCapitalized(ws: seq<string>)
    requires forall i :: 0 <= i < |ws| ==> ws[i] != []
    ensures forall i :: 0 <= i < |ws| ==> Upper(CapitalizeAll(ws)[i][0]) == Upper(ws[i][0])
  {
    forall i | 0 <= i < |ws|
      ensures Upper(CapitalizeAll(ws)[i][0]) == Upper(ws[i][0])
    {
      UpperIdempotent(ws[i][0]);
    }
  }

  /** The initials are one or two characters long, and never hold a lower-case ASCII letter. */
  lemma InitialsLength(email: Option<string>)
    ensures 1 <= |GetInitials(email)| <= 2
    ensures |GetInitials(email)| == 2 <==> |Words(LocalPart(email))| >= 2
    ensures forall i :: 0 <= i < |GetInitials(email)| ==> !('a' <= GetInitials(email)[i] <= 'z')
  {
  }

  /**
   * `getInitials` returns `"?"` exactly when the local part has no word, or
   * has one word and that word starts with `?` (so `"?@x"` and `"@x"` both
   * show `?`).
   */
  lemma InitialsPlaceholder(email: Option<string>)
    ensures var ws := Words(LocalPart(email));
      GetInitials(email) == "?" <==> ws == [] || (|ws| == 1 && ws[0][0] == '?')
  {
    var ws := Words(LocalPart(email));
    if |ws| == 1 {
      UpperKeepsNonLetters(ws[0][0], '?');
    }
  }

  /** The words of `john.doe` are `john` and `doe`. */
  lemma JohnDoeWords()
    ensures Words("john.doe") == ["john", "doe"]
  {
    var local := "john.doe";
    assert local[5..] == "doe";
    assert RunLength("doe"[3..]) == 0;
    assert RunLength("doe"[2..]) == 1;
    assert RunLength("doe"[1..]) == 2;
    assert RunLength("doe") == 3;
    assert "doe"[..3] == "doe" && "doe"[3..] == [];
    assert Words("doe") == ["doe"];
    assert local[4] == '.' && local[4..][1..] == "doe";
    assert Words(local[4..]) == ["doe"];
    assert RunLength(local[4..]) == 0;
    assert RunLength(local[3..]) == 1;
    assert RunLength(local[2..]) == 2;
    assert RunLength(local[1..]) == 3;
    assert RunLength(local) == 4;
    assert local[..4] == "john";
  }

  /** `"john.doe@example.com"` is shown as `John Doe` with the initials `JD`. */
  lemma JohnDoeExample()
    ensures FormatNameFromEmail(Some("john.doe@example.com")) == "John Doe"
    ensures GetInitials(Some("john.doe@example.com")) == "JD"
  {
    var email := Some("john.doe@example.com");
    JohnDoeLocalPart();
    JohnDoeWords();
    JohnDoeCapitalized();
  }

  /** The local part of `john.doe@example.com` is `john.doe`. */
  lemma JohnDoeLocalPart()
    ensures LocalPart(Some("john.doe@example.com")) == "john.doe"
  {
    assert "john.doe@example.com" == "john.doe" + ['@'] + "example.com";
    FormatNameIgnoresDomain("john.doe", "example.com");
  }

  /** Capitalising and joining `john`, `doe` gives `John Doe`. */
  lemma JohnDoeCapitalized()
    ensures Join(CapitalizeAll(["john", "doe"]), ' ') == "John Doe"
  {
  }
}
