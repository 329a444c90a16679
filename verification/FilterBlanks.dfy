/**
 * Exactly what the filter parser accepts: which blanks it removes around an '=', and which parameters
 * it reads as which filters.
 */
module FilterBlanks {
  import opened Prelude
  import opened Text
  import opened Filter

  // ---------- What normalisation removes ----------

  /** From the position back to an '=', there are only blanks. */
  ghost predicate AfterEquals(s: string, i: int) {
    exists j :: 0 <= j < i <= |s| && s[j] == '=' && forall k :: j < k < i ==> IsBlank(s[k])
  }

  /** From the position on to an '=', there are only blanks. */
  ghost predicate BeforeEquals(s: string, i: int) {
    exists j :: 0 <= i < j < |s| && s[j] == '=' && forall k :: i < k < j ==> IsBlank(s[k])
  }

  /** A blank in a run of blanks next to an '='. */
  ghost predicate InRun(s: string, i: int) {
    0 <= i < |s| && IsBlank(s[i]) && (AfterEquals(s, i) || BeforeEquals(s, i))
  }

  /** The characters from the position on that are in no run next to an '='. */
  ghost function Remaining(s: string, i: nat): string
    requires i <= |s|
    decreases |s| - i
  {
    if i == |s| then "" else (if InRun(s, i) then "" else [s[i]]) + Remaining(s, i + 1)
  }

  lemma {:induction false} RunIsRemoved(s: string, i: nat, n: nat)
    requires i <= n <= |s| && forall k :: i <= k < n ==> InRun(s, k)
    ensures Remaining(s, i) == Remaining(s, n)
    decreases n - i
  {
    if i < n {
      RunIsRemoved(s, i + 1, n);
    }
  }

  lemma BlanksAt(s: string, i: nat)
    requires i <= |s|
    ensures var n := |s| - |SkipBlanks(s[i..])|;
            && i <= n <= |s| && SkipBlanks(s[i..]) == s[n..] && (n < |s| ==> !IsBlank(s[n]))
            && forall k :: i <= k < n ==> IsBlank(s[k])
  {
    var r := SkipBlanks(s[i..]);
    var n := |s| - |r|;
    assert r == s[i..][n - i..];
    forall k | i <= k < n
      ensures IsBlank(s[k])
    {
      assert s[i..][k - i] == s[k];
    }
  }

  lemma NormalizeStep(s: string)
    requires s != ""
    ensures StartsWithEquals(s) ==> Normalize(s) == "=" + Normalize(SkipBlanks(SkipBlanks(s)[1..]))
    ensures !StartsWithEquals(s) ==> Normalize(s) == [s[0]] + Normalize(s[1..])
  {
  }

  lemma RemainingStep(s: string, i: nat)
    requires i < |s|
    ensures Remaining(s, i) == (if InRun(s, i) then "" else [s[i]]) + Remaining(s, i + 1)
  {
  }

  /** Blanks, '=' and blanks again are what remains after them, with an '=' before it. */
  lemma MatchIsRemoved(s: string, i: nat, n: nat, m: nat)
    requires i <= n < m <= |s| && s[n] == '='
    requires (forall k :: i <= k < n ==> IsBlank(s[k])) && forall k :: n < k < m ==> IsBlank(s[k])
    ensures Remaining(s, i) == "=" + Remaining(s, m)
  {
    hide Remaining;
    assert forall k :: i <= k < n ==> BeforeEquals(s, k);
    assert forall k :: n < k < m ==> AfterEquals(s, k);
    RunIsRemoved(s, i, n);
    RunIsRemoved(s, n + 1, m);
    RemainingStep(s, n);
  }

  /** Where the '=' of a match at the position stands. */
  lemma EqualsAt(s: string, i: nat) returns (n: nat)
    requires i < |s| && StartsWithEquals(s[i..])
    ensures i <= n < |s| && s[n] == '=' && forall k :: i <= k < n ==> IsBlank(s[k])
    ensures Normalize(s[i..]) == "=" + Normalize(SkipBlanks(s[n + 1..]))
  {
    hide *;
    n := StartAt(s, i);
    NormalizeStep(s[i..]);
  }

  lemma StartAt(s: string, i: nat) returns (n: nat)
    requires i < |s| && StartsWithEquals(s[i..])
    ensures i <= n < |s| && s[n] == '=' && forall k :: i <= k < n ==> IsBlank(s[k])
    ensures SkipBlanks(s[i..]) != "" && SkipBlanks(s[i..])[1..] == s[n + 1..]
  {
    hide SkipBlanks;
    BlanksAt(s, i);
    n := |s| - |SkipBlanks(s[i..])|;
    if n < |s| {
      DropAgain(s, n);
    }
  }

  /** And where the match ends. */
  lemma MatchAt(s: string, i: nat) returns (n: nat, m: nat)
    requires i < |s| && StartsWithEquals(s[i..])
    ensures i <= n < m <= |s| && s[n] == '=' && (m < |s| ==> !IsBlank(s[m]))
    ensures (forall k :: i <= k < n ==> IsBlank(s[k])) && forall k :: n < k < m ==> IsBlank(s[k])
    ensures Normalize(s[i..]) == "=" + Normalize(s[m..])
  {
    hide Normalize, SkipBlanks, StartsWithEquals;
    n := EqualsAt(s, i);
    BlanksAt(s, n + 1);
    m := |s| - |SkipBlanks(s[n + 1..])|;
  }

  lemma DropAgain(s: string, n: nat)
    requires n < |s|
    ensures s[n..] != "" && s[n..][0] == s[n] && s[n..][1..] == s[n + 1..]
  {
  }

  lemma NoMatchAt(s: string, i: nat) returns (n: nat)
    requires i < |s| && !StartsWithEquals(s[i..])
    ensures i <= n <= |s| && (n < |s| ==> !IsBlank(s[n]) && s[n] != '=') && forall k :: i <= k < n ==> IsBlank(s[k])
    ensures Normalize(s[i..]) == [s[i]] + Normalize(s[i + 1..])
  {
    hide Normalize, SkipBlanks;
    BlanksAt(s, i);
    NormalizeStep(s[i..]);
    n := |s| - |SkipBlanks(s[i..])|;
    assert s[i..][1..] == s[i + 1..] && s[i..][0] == s[i];
  }

  /** Normalising the rest of a text, from a position that no run reaches into. */
  lemma {:induction false} NormalizedRest(s: string, i: nat)
    requires i <= |s| && !(i < |s| && IsBlank(s[i]) && AfterEquals(s, i))
    ensures Normalize(s[i..]) == Remaining(s, i)
    decreases |s| - i
  {
    hide Normalize, SkipBlanks, StartsWithEquals, Remaining, AfterEquals, InRun;
    if i == |s| {
      NothingLeft(s);
    } else if StartsWithEquals(s[i..]) {
      var n, m := MatchAt(s, i);
      MatchIsRemoved(s, i, n, m);
      NormalizedRest(s, m);
    } else {
      var n := NoMatchAt(s, i);
      NotInRun(s, i, n);
      RemainingStep(s, i);
      NormalizedRest(s, i + 1);
    }
  }

  lemma NothingLeft(s: string)
    ensures Normalize(s[|s|..]) == "" && Remaining(s, |s|) == ""
  {
  }

  lemma AfterEqualsStep(s: string, i: nat)
    requires i < |s| && AfterEquals(s, i + 1)
    ensures s[i] == '=' || (IsBlank(s[i]) && AfterEquals(s, i))
  {
    var j :| 0 <= j < i + 1 <= |s| && s[j] == '=' && forall k :: j < k < i + 1 ==> IsBlank(s[k]);
    assert j < i ==> IsBlank(s[i]);
  }

  lemma NotInRun(s: string, i: nat, n: nat)
    requires i < |s| && i <= n <= |s| && (n < |s| ==> !IsBlank(s[n]) && s[n] != '=')
    requires forall k :: i <= k < n ==> IsBlank(s[k])
    requires !(IsBlank(s[i]) && AfterEquals(s, i))
    ensures !InRun(s, i)
    ensures !(i + 1 < |s| && IsBlank(s[i + 1]) && AfterEquals(s, i + 1))
  {
    if BeforeEquals(s, i) && IsBlank(s[i]) {
      var j :| i < j < |s| && s[j] == '=' && forall k :: i < k < j ==> IsBlank(s[k]);
      assert false;
    }
    if i + 1 < |s| && AfterEquals(s, i + 1) {
      AfterEqualsStep(s, i);
    }
  }

  /** Normalisation removes the blanks that stand in a run next to an '=', and keeps all else in order. */
  lemma NormalizedIsRemaining(s: string)
    ensures Normalize(s) == Remaining(s, 0)
  {
    NormalizedRest(s, 0);
    assert s[0..] == s;
  }

  /** Nothing but blanks. */
  predicate AllBlank(s: string) {
    forall i :: 0 <= i < |s| ==> IsBlank(s[i])
  }

  lemma {:induction false} SkipsAll(blanks: string, s: string)
    requires AllBlank(blanks)
    ensures SkipBlanks(blanks + s) == SkipBlanks(s)
  {
    if blanks == "" {
      assert blanks + s == s;
    } else {
      assert (blanks + s)[1..] == blanks[1..] + s;
      SkipsAll(blanks[1..], s);
    }
  }

  lemma {:induction false} SkipsSome(a: string, rest: string)
    requires !AllBlank(a)
    ensures SkipBlanks(a) != "" && SkipBlanks(a + rest) == SkipBlanks(a) + rest
  {
    hide SkipBlanks, AllBlank;
    SkipStep(a);
    SkipStep(a + rest);
    assert (a + rest)[0] == a[0] && (a + rest)[1..] == a[1..] + rest;
    if IsBlank(a[0]) {
      SkipsSome(a[1..], rest);
    }
  }

  lemma SkipStep(s: string)
    ensures SkipBlanks(s) == if s != "" && IsBlank(s[0]) then SkipBlanks(s[1..]) else s
    ensures !AllBlank(s) ==> s != "" && (IsBlank(s[0]) ==> !AllBlank(s[1..]))
  {
    if s != "" && IsBlank(s[0]) && AllBlank(s[1..]) {
      forall i | 0 <= i < |s|
        ensures IsBlank(s[i])
      {
        assert i > 0 ==> s[i] == s[1..][i - 1];
      }
    }
  }

  /** A text whose first non-blank is the '=': it is followed by what comes after the blanks. */
  lemma EqualsFirst(blanks: string, after: string, b: string)
    requires AllBlank(blanks) && AllBlank(after)
    ensures Normalize(blanks + ("=" + (after + b))) == "=" + Normalize(SkipBlanks(b))
  {
    hide Normalize, SkipBlanks;
    var rest := "=" + (after + b);
    SkipsAll(blanks, rest);
    SkipsAll(after, b);
    NotBlank(rest);
    NormalizeStep(blanks + rest);
    assert rest[1..] == after + b;
  }

  lemma NotBlank(s: string)
    requires s != "" && !IsBlank(s[0])
    ensures SkipBlanks(s) == s
  {
  }

  /** Blanks around an '=' do not matter to the normal form. */
  lemma {:induction false} BlanksAreNormalized(a: string, before: string, after: string, b: string)
    requires AllBlank(before) && AllBlank(after)
    ensures Normalize(a + (before + ("=" + (after + b)))) == Normalize(a + ("=" + b))
    decreases |a|, 0
  {
    hide Normalize, SkipBlanks;
    var x, y := before + ("=" + (after + b)), "=" + b;
    if AllBlank(a) {
      EqualsFirst(a + before, after, b);
      assert a + x == (a + before) + ("=" + (after + b));
      EqualsFirst(a, "", b);
      assert y == "=" + ("" + b);
    } else {
      SkipsSome(a, x);
      SkipsSome(a, y);
      NormalizeStep(a + x);
      NormalizeStep(a + y);
      var r := SkipBlanks(a);
      assert (r + x)[0] == r[0] && (r + x)[1..] == r[1..] + x && (r + y)[0] == r[0] && (r + y)[1..] == r[1..] + y;
      if r[0] == '=' {
        AfterAnEquals(r[1..], before, after, b);
      } else {
        assert (a + x)[0] == a[0] && (a + x)[1..] == a[1..] + x && (a + y)[0] == a[0] && (a + y)[1..] == a[1..] + y;
        BlanksAreNormalized(a[1..], before, after, b);
      }
    }
  }

  lemma EqualsAlone(after: string, b: string)
    requires AllBlank(after)
    ensures Normalize("=" + (after + b)) == "=" + Normalize(SkipBlanks(b))
  {
    hide Normalize, SkipBlanks, AllBlank;
    BlankConcatenation("", "");
    EqualsFirst("", after, b);
    NothingBefore("=" + (after + b));
  }

  lemma NothingBefore(s: string)
    ensures "" + s == s
  {
  }

  /** The same for what follows another '='. */
  lemma {:induction false} AfterAnEquals(a: string, before: string, after: string, b: string)
    requires AllBlank(before) && AllBlank(after)
    ensures Normalize(SkipBlanks(a + (before + ("=" + (after + b))))) == Normalize(SkipBlanks(a + ("=" + b)))
    decreases |a|, 1
  {
    hide Normalize, SkipBlanks, AllBlank;
    var x, y := "=" + (after + b), "=" + b;
    if AllBlank(a) {
      Associative(a, before, x);
      BlankConcatenation(a, before);
      SkipsAll(a + before, x);
      SkipsAll(a, y);
      NotBlank(x);
      NotBlank(y);
      EqualsAlone(after, b);
      BlankConcatenation("", "");
      EqualsAlone("", b);
      NothingBefore(b);
    } else {
      SkipsSome(a, before + x);
      SkipsSome(a, y);
      BlanksAreNormalized(SkipBlanks(a), before, after, b);
    }
  }

  lemma BlankConcatenation(a: string, b: string)
    ensures AllBlank("") && (AllBlank(a) && AllBlank(b) ==> AllBlank(a + b))
  {
  }

  // ---------- Exactly what is parsed ----------

  lemma JoinStep(first: string, rest: seq<string>)
    ensures Join([first], ' ') == first
    ensures rest != [] ==> Join([first] + rest, ' ') == first + [' '] + Join(rest, ' ')
  {
    assert rest != [] ==> ([first] + rest)[1..] == rest;
  }

  lemma PrintStep(f: Filter, more: seq<Filter>)
    ensures Print([f]) == PrintOne(f)
    ensures more != [] ==> Print([f] + more) == PrintOne(f) + " OR " + Print(more)
  {
    assert more != [] ==> ([f] + more)[1..] == more;
  }

  /** What the scan adds to the list prints as the elements that it has read. */
  lemma {:induction false} ScannedPrints(
    elements: seq<string>, done: seq<Filter>, current: Option<Filter>, fs: seq<Filter>) returns (more: seq<Filter>)
    requires Scan(elements, done, current) == Ok(fs)
    ensures fs == done + more
    ensures current.Some? ==> more != [] && Join([PrintOne(current.value)] + elements, ' ') == Print(more)
    ensures current.None? && elements != [] ==> more != [] && Join(elements, ' ') == Print(more)
    decreases |elements|
  {
    hide Print, PrintOne, Join;
    if elements == [] {
      more := AsList(current);
      if current.Some? {
        assert [PrintOne(current.value)] + elements == [PrintOne(current.value)];
        JoinStep(PrintOne(current.value), []);
        PrintStep(current.value, []);
      }
    } else {
      var element, rest := elements[0], elements[1..];
      assert elements == [element] + rest;
      if '=' in element {
        var selectors := Split(element, '=');
        TwoSelectors(element);
        var f := Filter(selectors[0], selectors[1]);
        assert element == PrintOne(f) by { PrintedIs(f); }
        more := ScannedPrints(rest, done, Some(f), fs);
      } else if element == "OR" {
        var after := ScannedPrints(rest, done + [current.value], None, fs);
        more := [current.value] + after;
        assert done + [current.value] + after == done + more;
        JoinStep(PrintOne(current.value), elements);
        JoinStep(element, rest);
        PrintStep(current.value, after);
        var x := Join(rest, ' ');
        assert PrintOne(current.value) + [' '] + ("OR" + [' '] + x) == PrintOne(current.value) + " OR " + x;
      } else {
        var f := current.value;
        var longer := f.(value := f.value + " " + element);
        more := ScannedPrints(rest, done, Some(longer), fs);
        assert PrintOne(longer) == PrintOne(f) + " " + element by { PrintedIs(f); PrintedIs(longer); }
        JoinMerges(PrintOne(f), elements);
      }
    }
  }

  lemma PrintedIs(f: Filter)
    ensures PrintOne(f) == f.name + "=" + f.value
    ensures forall word :: PrintOne(f.(value := f.value + " " + word)) == PrintOne(f) + " " + word
  {
    forall word
      ensures PrintOne(f.(value := f.value + " " + word)) == PrintOne(f) + " " + word
    {
      assert f.name + "=" + (f.value + " " + word) == f.name + "=" + f.value + " " + word;
    }
  }

  /**
   * Exactly what is parsed: a parameter yields the filters if and only if they are well-formed and the
   * parameter, without the blanks that stand next to an '=', is what they print as.
   */
  lemma ParsedIff(parameter: string, fs: seq<Filter>)
    requires parameter != ""
    ensures Parse(parameter) == Ok(fs) <==> fs != [] && AllWellFormed(fs) && Remaining(parameter, 0) == Print(fs)
  {
    hide Print, Scan, Split, Normalize, WellFormed, Remaining, Join;
    NormalizedIsRemaining(parameter);
    if Parse(parameter) == Ok(fs) {
      ParsedAreWellFormed(parameter);
      var elements := Split(Normalize(parameter), ' ');
      var more := ScannedPrints(elements, [], None, fs);
      assert [] + more == more;
      JoinSplit(Normalize(parameter), ' ');
    }
    if fs != [] && AllWellFormed(fs) && Normalize(parameter) == Print(fs) {
      WellFormedParsesBack(fs);
      PrintedIsTight(fs);
      TightIsNormalized(Print(fs));
    }
  }

  // ---------- Blanks around '=' ----------

  /** Blanks before or after any '=' of a parameter do not change what it parses to. */
  lemma BlanksDoNotMatter(a: string, before: string, after: string, b: string)
    requires AllBlank(before) && AllBlank(after)
    ensures Parse(a + (before + ("=" + (after + b)))) == Parse(a + ("=" + b))
  {
    hide Normalize, Scan, Split, AllBlank;
    BlanksAreNormalized(a, before, after, b);
    assert (a + ("=" + b))[|a|] == '=' && (a + (before + ("=" + (after + b))))[|a| + |before|] == '=';
  }

  /** The blanks to print before and after an '='. */
  datatype Gap = Gap(before: string, after: string)

  predicate AllGaps(gaps: seq<Gap>) {
    forall i :: 0 <= i < |gaps| ==> AllBlank(gaps[i].before) && AllBlank(gaps[i].after)
  }

  function PrintOneWith(f: Filter, gap: Gap): string { f.name + (gap.before + ("=" + (gap.after + f.value))) }

  function PrintWith(fs: seq<Filter>, gaps: seq<Gap>): string
    requires |gaps| == |fs|
  {
    if fs == [] then ""
    else if |fs| == 1 then PrintOneWith(fs[0], gaps[0])
    else PrintOneWith(fs[0], gaps[0]) + " OR " + PrintWith(fs[1..], gaps[1..])
  }

  /** What follows the first filter. */
  function Rest(fs: seq<Filter>, gaps: seq<Gap>): string
    requires |gaps| == |fs| > 0
  {
    if |fs| == 1 then "" else " OR " + PrintWith(fs[1..], gaps[1..])
  }

  const NO_GAP := Gap("", "")

  function NoGaps(fs: seq<Filter>): seq<Gap> { seq(|fs|, _ => NO_GAP) }

  lemma {:induction false} WithoutGaps(fs: seq<Filter>)
    ensures PrintWith(fs, NoGaps(fs)) == Print(fs)
  {
    if fs != [] {
      NoGapPrints(fs[0]);
      if |fs| > 1 {
        WithoutGaps(fs[1..]);
        assert NoGaps(fs)[1..] == NoGaps(fs[1..]);
      }
    }
  }

  lemma NoGapPrints(f: Filter)
    ensures PrintOneWith(f, NO_GAP) == PrintOne(f)
  {
  }

  lemma PrintedFirst(fs: seq<Filter>, gaps: seq<Gap>)
    requires |gaps| == |fs| > 0
    ensures PrintWith(fs, gaps) == PrintOneWith(fs[0], gaps[0]) + Rest(fs, gaps)
  {
    hide PrintOneWith;
    var one := PrintOneWith(fs[0], gaps[0]);
    if |fs| == 1 {
      assert one + "" == one;
    } else {
      Associative(one, " OR ", PrintWith(fs[1..], gaps[1..]));
    }
  }

  lemma FirstAndRest(prefix: string, fs: seq<Filter>, gaps: seq<Gap>)
    requires |gaps| == |fs| > 0
    ensures prefix + PrintWith(fs, gaps) == (prefix + PrintOneWith(fs[0], gaps[0])) + Rest(fs, gaps)
  {
    hide PrintOneWith, PrintWith, Rest;
    PrintedFirst(fs, gaps);
    Associative(prefix, PrintOneWith(fs[0], gaps[0]), Rest(fs, gaps));
  }

  lemma RestAfter(prefix: string, fs: seq<Filter>, gaps: seq<Gap>)
    requires |gaps| == |fs| > 1
    ensures prefix + Rest(fs, gaps) == (prefix + " OR ") + PrintWith(fs[1..], gaps[1..])
  {
    hide PrintWith;
  }

  /** The gaps do not matter to the normal form, whatever comes before. */
  lemma {:induction false} GapsAreNormalized(prefix: string, fs: seq<Filter>, gaps: seq<Gap>, gaps': seq<Gap>)
    requires |gaps| == |gaps'| == |fs| && AllGaps(gaps) && AllGaps(gaps')
    ensures Normalize(prefix + PrintWith(fs, gaps)) == Normalize(prefix + PrintWith(fs, gaps'))
    decreases |fs|
  {
    hide Normalize, AllBlank, PrintOneWith, PrintWith, Rest;
    if fs != [] {
      var f, rest := fs[0], Rest(fs, gaps);
      OneGapIsNormalized(prefix, f, gaps[0], gaps'[0], rest);
      FirstAndRest(prefix, fs, gaps);
      FirstAndRest(prefix, fs, gaps');
      var start := prefix + PrintOneWith(f, gaps'[0]);
      if |fs| > 1 {
        RestAfter(start, fs, gaps);
        RestAfter(start, fs, gaps');
        GapsAreNormalized(start + " OR ", fs[1..], gaps[1..], gaps'[1..]);
      } else {
        NoRest(fs, gaps, gaps');
      }
    } else {
      NothingPrinted(gaps, gaps');
    }
  }

  lemma NothingPrinted(gaps: seq<Gap>, gaps': seq<Gap>)
    requires gaps == [] && gaps' == []
    ensures PrintWith([], gaps) == PrintWith([], gaps') == ""
  {
  }

  lemma NoRest(fs: seq<Filter>, gaps: seq<Gap>, gaps': seq<Gap>)
    requires |gaps| == |gaps'| == |fs| == 1
    ensures Rest(fs, gaps) == Rest(fs, gaps') == ""
  {
  }

  lemma OneGapIsNormalized(prefix: string, f: Filter, gap: Gap, gap': Gap, rest: string)
    requires AllBlank(gap.before) && AllBlank(gap.after) && AllBlank(gap'.before) && AllBlank(gap'.after)
    ensures Normalize((prefix + PrintOneWith(f, gap)) + rest) == Normalize((prefix + PrintOneWith(f, gap')) + rest)
  {
    hide Normalize, AllBlank;
    BlanksAreNormalized(prefix + f.name, gap.before, gap.after, f.value + rest);
    BlanksAreNormalized(prefix + f.name, gap'.before, gap'.after, f.value + rest);
    OneIs(prefix, f, gap, rest);
    OneIs(prefix, f, gap', rest);
  }

  lemma OneIs(prefix: string, f: Filter, gap: Gap, rest: string)
    ensures (prefix + PrintOneWith(f, gap)) + rest ==
            (prefix + f.name) + (gap.before + ("=" + (gap.after + (f.value + rest))))
  {
  }

  /** Printing with any blanks around each '=' and parsing gives back exactly the well-formed lists. */
  lemma PrintedWithGapsParsesBack(fs: seq<Filter>, gaps: seq<Gap>)
    requires |gaps| == |fs| && AllGaps(gaps)
    ensures Parse(PrintWith(fs, gaps)) == Ok(fs) <==> AllWellFormed(fs)
  {
    hide Normalize, AllBlank, PrintWith, Print, Scan, Split, WellFormed;
    if fs == [] {
      NothingPrinted(gaps, gaps);
    } else {
      WithoutGaps(fs);
      assert AllGaps(NoGaps(fs)) by { BlankConcatenation("", ""); }
      GapsAreNormalized("", fs, gaps, NoGaps(fs));
      NothingBefore(PrintWith(fs, gaps));
      NothingBefore(Print(fs));
      PrintedIsNotEmpty(fs, gaps);
      PrintedIsNotEmpty(fs, NoGaps(fs));
      PrintedParsesBack(fs);
    }
  }

  lemma PrintedIsNotEmpty(fs: seq<Filter>, gaps: seq<Gap>)
    requires |gaps| == |fs| > 0
    ensures PrintWith(fs, gaps) != ""
  {
    PrintedFirst(fs, gaps);
    assert |PrintOneWith(fs[0], gaps[0])| > 0;
  }
}
