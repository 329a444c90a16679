/** The string operations the catalog uses: Go's strings package, and the validated name patterns. */
module Text {

  // ---------- Splitting and joining (strings.Split with a one-character separator) ----------

  function Split(s: string, sep: char): (r: seq<string>)
    ensures |r| >= 1
    ensures forall i :: 0 <= i < |r| ==> sep !in r[i]
  {
    if s == "" then [""]
    else if s[0] == sep then [""] + Split(s[1..], sep)
    else
      var r := Split(s[1..], sep);
      [[s[0]] + r[0]] + r[1..]
  }

  function Join(pieces: seq<string>, sep: char): string {
    if pieces == [] then ""
    else if |pieces| == 1 then pieces[0]
    else pieces[0] + [sep] + Join(pieces[1..], sep)
  }

  lemma {:induction false} SplitAtSeparator(a: string, sep: char, b: string)
    ensures Split(a + [sep] + b, sep) == Split(a, sep) + Split(b, sep)
  {
    hide Split;
    var s := a + [sep] + b;
    SplitStep(s, sep);
    SplitStep(a, sep);
    if a == "" {
      assert s[1..] == b;
    } else {
      assert s[0] == a[0] && s[1..] == a[1..] + [sep] + b;
      SplitAtSeparator(a[1..], sep, b);
      var r, q := Split(a[1..], sep), Split(b, sep);
      Associative([""], r, q);
      Associative([[a[0]] + r[0]], r[1..], q);
      TailOfConcatenation(r, q);
    }
  }

  lemma Associative<T>(x: seq<T>, y: seq<T>, z: seq<T>)
    ensures x + (y + z) == (x + y) + z
  {
  }

  lemma TailOfConcatenation<T>(x: seq<T>, y: seq<T>)
    requires x != []
    ensures (x + y)[0] == x[0] && (x + y)[1..] == x[1..] + y
  {
  }

  /** How splitting proceeds by one character. */
  lemma SplitStep(s: string, sep: char)
    ensures Split(s, sep) ==
            if s == "" then [""]
            else if s[0] == sep then [""] + Split(s[1..], sep)
            else [[s[0]] + Split(s[1..], sep)[0]] + Split(s[1..], sep)[1..]
  {
  }

  lemma {:induction false} SplitWithoutSeparator(s: string, sep: char)
    requires sep !in s
    ensures Split(s, sep) == [s]
  {
    if s != "" {
      SplitWithoutSeparator(s[1..], sep);
      assert s == [s[0]] + s[1..];
    }
  }

  lemma {:induction false} JoinSplit(s: string, sep: char)
    ensures Join(Split(s, sep), sep) == s
  {
    if s != "" {
      var r := Split(s[1..], sep);
      JoinSplit(s[1..], sep);
      if s[0] == sep {
        assert ([""] + r)[1..] == r;
        assert s == "" + [sep] + s[1..];
      } else {
        assert s == [s[0]] + s[1..];
        var pieces := [[s[0]] + r[0]] + r[1..];
        assert pieces[1..] == r[1..];
        if |r| > 1 {
          assert [s[0]] + (r[0] + [sep] + Join(r[1..], sep)) == ([s[0]] + r[0]) + [sep] + Join(r[1..], sep);
        }
      }
    }
  }

  // ---------- Composite keys ----------

  /** A key built as left + separator + right is read uniquely if no left part holds the separator. */
  lemma {:induction false} FirstSeparatorIsUnique(a: string, b: string, a': string, b': string, sep: char)
    requires sep !in a && sep !in a'
    requires a + [sep] + b == a' + [sep] + b'
    ensures a == a' && b == b'
  {
    SplitAtSeparator(a, sep, b);
    SplitAtSeparator(a', sep, b');
    SplitWithoutSeparator(a, sep);
    SplitWithoutSeparator(a', sep);
    var s, t := a + [sep] + b, a' + [sep] + b';
    assert Split(s, sep)[0] == a && Split(t, sep)[0] == a';
    assert b == s[|a| + 1..] && b' == t[|a'| + 1..];
  }

  /** The same when no right part holds the separator. */
  lemma LastSeparatorIsUnique(a: string, b: string, a': string, b': string, sep: char)
    requires sep !in b && sep !in b'
    requires a + [sep] + b == a' + [sep] + b'
    ensures a == a' && b == b'
  {
    var s, t := a + [sep] + b, a' + [sep] + b';
    assert s[|a|] == sep && t[|a'|] == sep;
    assert forall i :: |a| < i < |s| ==> s[i] == b[i - |a| - 1];
    assert forall i :: |a'| < i < |t| ==> t[i] == b'[i - |a'| - 1];
    assert |a| == |a'|;
    assert a == s[..|a|] && a' == t[..|a'|];
    assert b == s[|a| + 1..] && b' == t[|a'| + 1..];
  }

  // ---------- Case and white space ----------

  /** strings.ToLower on ASCII letters; every other character is kept. */
  function LowerChar(c: char): char {
    if 'A' <= c <= 'Z' then (c as int + 32) as char else c
  }

  function ToLower(s: string): (r: string)
    ensures |r| == |s|
    ensures forall i :: 0 <= i < |s| ==> r[i] == LowerChar(s[i])
  {
    seq(|s|, i requires 0 <= i < |s| => LowerChar(s[i]))
  }

  /** The White_Space characters that strings.TrimSpace removes. */
  predicate IsSpace(c: char) {
    '\t' <= c <= '\r' || c == ' ' || c == '\U{0085}' || c == '\U{00A0}' || c == '\U{1680}' ||
    '\U{2000}' <= c <= '\U{200A}' || c == '\U{2028}' || c == '\U{2029}' || c == '\U{202F}' ||
    c == '\U{205F}' || c == '\U{3000}'
  }

  /** The test displayName == strings.TrimSpace(displayName). */
  predicate IsTrimmed(s: string) {
    s == "" || (!IsSpace(s[0]) && !IsSpace(s[|s| - 1]))
  }

  /** strings.TrimSpace. */
  function TrimSpace(s: string): (r: string)
    ensures |r| <= |s|
  {
    if s == "" then ""
    else if IsSpace(s[0]) then TrimSpace(s[1..])
    else if IsSpace(s[|s| - 1]) then TrimSpace(s[..|s| - 1])
    else s
  }

  lemma TrimmedIff(s: string)
    ensures IsTrimmed(s) <==> TrimSpace(s) == s
  {
    if s != "" && IsSpace(s[0]) {
      assert |TrimSpace(s[1..])| < |s|;
    } else if s != "" && IsSpace(s[|s| - 1]) {
      assert |TrimSpace(s[..|s| - 1])| < |s|;
    }
  }

  // ---------- Validated names ----------

  predicate LowerAlnum(c: char) { 'a' <= c <= 'z' || '0' <= c <= '9' }

  predicate NameChar(c: char) { LowerAlnum(c) || c == '-' }

  predicate VersionChar(c: char) { NameChar(c) || c == '.' }

  /** The pattern ^[a-z0-9][a-z0-9-]{0,middle}[a-z0-9]{0,1}$. */
  predicate MatchesName(s: string, middle: nat) {
    1 <= |s| <= middle + 2 && LowerAlnum(s[0]) &&
    (forall i :: 0 <= i < |s| ==> NameChar(s[i])) &&
    (|s| == middle + 2 ==> LowerAlnum(s[|s| - 1]))
  }

  /** The pattern of registry, artifact, package, profile and reference names. */
  predicate ValidName(s: string) { MatchesName(s, 38) }

  /** The shorter pattern of application names. */
  predicate ValidApplicationName(s: string) { MatchesName(s, 24) }

  /** The pattern ^[a-z0-9][a-z0-9-.]{0,18}[a-z0-9]{0,1}$. */
  predicate ValidVersion(s: string) {
    1 <= |s| <= 20 && LowerAlnum(s[0]) &&
    (forall i :: 0 <= i < |s| ==> VersionChar(s[i])) &&
    (|s| == 20 ==> LowerAlnum(s[|s| - 1]))
  }

  /** One letter or digit, up to `middle` inner characters, and up to one more letter or digit. */
  ghost predicate MatchesPattern(s: string, middle: nat, inner: char -> bool) {
    exists c, u: string, t: string :: s == [c] + u + t && IsPattern(c, u, t, middle, inner)
  }

  predicate IsPattern(c: char, u: string, t: string, middle: nat, inner: char -> bool) {
    && LowerAlnum(c)
    && |u| <= middle && (forall i :: 0 <= i < |u| ==> inner(u[i]))
    && |t| <= 1 && (forall i :: 0 <= i < |t| ==> LowerAlnum(t[i]))
  }

  /** The texts of a pattern by their length and characters: only the last of a longest text is restricted. */
  lemma PatternIff(s: string, middle: nat, inner: char -> bool)
    requires forall c :: LowerAlnum(c) ==> inner(c)
    ensures MatchesPattern(s, middle, inner) <==>
            && 1 <= |s| <= middle + 2 && LowerAlnum(s[0]) && (forall i :: 0 <= i < |s| ==> inner(s[i]))
            && (|s| == middle + 2 ==> LowerAlnum(s[|s| - 1]))
  {
    if c, u: string, t: string :| s == [c] + u + t && IsPattern(c, u, t, middle, inner) {
      assert |s| == 1 + |u| + |t| && s[0] == c;
      forall i | 0 <= i < |s|
        ensures inner(s[i])
      {
        assert s[i] == if i == 0 then c else if i <= |u| then u[i - 1] else t[i - 1 - |u|];
      }
    }
    if 1 <= |s| <= middle + 2 && LowerAlnum(s[0]) && (forall i :: 0 <= i < |s| ==> inner(s[i])) &&
       (|s| == middle + 2 ==> LowerAlnum(s[|s| - 1]))
    {
      var n := if |s| == middle + 2 then |s| - 1 else |s|;
      assert s == [s[0]] + s[1..n] + s[n..] && IsPattern(s[0], s[1..n], s[n..], middle, inner);
    }
  }

  /** The three kinds of valid text are those of the patterns in the interface definition. */
  lemma ValidTextsIff(s: string)
    ensures ValidName(s) <==> MatchesPattern(s, 38, NameChar)
    ensures ValidApplicationName(s) <==> MatchesPattern(s, 24, NameChar)
    ensures ValidVersion(s) <==> MatchesPattern(s, 18, VersionChar)
  {
    PatternIff(s, 38, NameChar);
    PatternIff(s, 24, NameChar);
    PatternIff(s, 18, VersionChar);
  }

  /** What the key constructions need from a validated name. */
  predicate Plain(s: string) {
    s != "" && '@' !in s && ':' !in s && '/' !in s && '_' !in s && IsTrimmed(s)
  }

  lemma ValidNamesArePlain(s: string)
    requires ValidName(s) || ValidApplicationName(s) || ValidVersion(s)
    ensures Plain(s)
  {
    forall i | 0 <= i < |s|
      ensures VersionChar(s[i])
    {
    }
  }
}
