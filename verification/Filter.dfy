/** The filter language of the list operations: parser, printer, and what a filter selects. */
module Filter {
  import opened Prelude
  import opened Text

  datatype Filter = Filter(name: string, value: string)

  // ---------- Whitespace around '=' ----------

  predicate IsBlank(c: char) { c == ' ' || c == '\t' }

  function SkipBlanks(s: string): (r: string)
    ensures |r| <= |s| && r == s[|s| - |r|..] && (r != "" ==> !IsBlank(r[0]))
    ensures forall i :: 0 <= i < |s| - |r| ==> IsBlank(s[i])
  {
    if s != "" && IsBlank(s[0]) then SkipBlanks(s[1..]) else s
  }

  /** Blanks, '=' and blanks again begin the text. */
  predicate StartsWithEquals(s: string) {
    SkipBlanks(s) != "" && SkipBlanks(s)[0] == '='
  }

  /** Replaces every leftmost longest match of [ \t]*=[ \t]* by "=". */
  function Normalize(s: string): string
    decreases |s|
  {
    if s == "" then ""
    else if StartsWithEquals(s) then "=" + Normalize(SkipBlanks(SkipBlanks(s)[1..]))
    else [s[0]] + Normalize(s[1..])
  }

  /** No blank stands next to '='. */
  ghost predicate Tight(s: string) {
    forall i :: 0 <= i < |s| - 1 ==> !(s[i] == '=' && IsBlank(s[i + 1])) && !(IsBlank(s[i]) && s[i + 1] == '=')
  }

  lemma {:induction false} NormalizedIsTight(s: string)
    ensures Tight(Normalize(s))
    ensures Normalize(s) != "" ==> s != "" && (Normalize(s)[0] == '=' <==> StartsWithEquals(s))
    ensures Normalize(s) != "" && Normalize(s)[0] != '=' ==> Normalize(s)[0] == s[0]
    decreases |s|
  {
    if s != "" {
      var rest := if StartsWithEquals(s) then SkipBlanks(SkipBlanks(s)[1..]) else s[1..];
      var c := if StartsWithEquals(s) then '=' else s[0];
      NormalizedIsTight(rest);
      TightStep(c, Normalize(rest));
    }
  }

  lemma TightStep(c: char, rest: string)
    requires Tight(rest)
    requires rest != "" ==> !(c == '=' && IsBlank(rest[0])) && !(IsBlank(c) && rest[0] == '=')
    ensures Tight([c] + rest)
  {
    var s := [c] + rest;
    forall i | 0 <= i < |s| - 1
      ensures !(s[i] == '=' && IsBlank(s[i + 1])) && !(IsBlank(s[i]) && s[i + 1] == '=')
    {
      assert i > 0 ==> s[i] == rest[i - 1];
      assert s[i + 1] == rest[i];
    }
  }

  lemma {:induction false} TightIsNormalized(s: string)
    requires Tight(s)
    ensures Normalize(s) == s
    decreases |s|
  {
    if s != "" {
      assert s == [s[0]] + s[1..];
      if StartsWithEquals(s) {
        if IsBlank(s[0]) { BlankBeforeEquals(s); }
        TightTail(s);
        assert s[1..] == "" || !IsBlank(s[1]);
      } else {
        TightTail(s);
      }
      TightIsNormalized(s[1..]);
    }
  }

  lemma BlankBeforeEquals(s: string)
    requires s != "" && IsBlank(s[0]) && StartsWithEquals(s)
    ensures !Tight(s)
  {
    var n := |s| - |SkipBlanks(s)|;
    assert IsBlank(s[n - 1]) && s[n] == '=';
  }

  lemma TightTail(s: string)
    requires Tight(s) && s != ""
    ensures Tight(s[1..])
  {
    var t := s[1..];
    forall i | 0 <= i < |t| - 1
      ensures !(t[i] == '=' && IsBlank(t[i + 1])) && !(IsBlank(t[i]) && t[i + 1] == '=')
    {
      assert t[i] == s[i + 1] && t[i + 1] == s[i + 2];
    }
  }

  // ---------- The parser ----------

  function AsList(current: Option<Filter>): seq<Filter> {
    match current
    case None => []
    case Some(f) => [f]
  }

  /** The parser's state machine over the remaining elements. */
  function Scan(elements: seq<string>, done: seq<Filter>, current: Option<Filter>): Result<seq<Filter>> {
    if elements == [] then Ok(done + AsList(current))
    else
      var element := elements[0];
      if '=' in element then
        var selectors := Split(element, '=');
        if current.Some? || |selectors| != 2 || selectors[0] == "" || selectors[1] == "" then Err(InvalidArgument)
        else Scan(elements[1..], done, Some(Filter(selectors[0], selectors[1])))
      else if element == "OR" then
        if current.None? || |elements| == 1 then Err(InvalidArgument)
        else Scan(elements[1..], done + [current.value], None)
      else if current.None? then Err(InvalidArgument)
      else Scan(elements[1..], done, Some(current.value.(value := current.value.value + " " + element)))
  }

  function Parse(parameter: string): Result<seq<Filter>> {
    if parameter == "" then Ok([]) else Scan(Split(Normalize(parameter), ' '), [], None)
  }

  method ParseFilter(parameter: string) returns (r: Result<seq<Filter>>)
    ensures r == Parse(parameter)
  {
    if parameter == "" {
      return Ok([]);
    }
    var elements := Split(Normalize(parameter), ' ');
    var filters: seq<Filter> := [];
    var current: Option<Filter> := None;
    for i := 0 to |elements|
      invariant Scan(elements[i..], filters, current) == Parse(parameter)
    {
      var element := elements[i];
      assert elements[i..][1..] == elements[i + 1..];
      if '=' in element {
        var selectors := Split(element, '=');
        if current.Some? || |selectors| != 2 || selectors[0] == "" || selectors[1] == "" {
          return Err(InvalidArgument);
        }
        current := Some(Filter(selectors[0], selectors[1]));
      } else if element == "OR" {
        if current.None? || i == |elements| - 1 {
          return Err(InvalidArgument);
        }
        filters := filters + [current.value];
        current := None;
      } else {
        if current.None? {
          return Err(InvalidArgument);
        }
        current := Some(current.value.(value := current.value.value + " " + element));
      }
    }
    assert elements[|elements|..] == [] && filters + [] == filters;
    if current.Some? {
      filters := filters + [current.value];
    }
    return Ok(filters);
  }

  // ---------- The printer, and what it accepts ----------

  function PrintOne(f: Filter): string { f.name + "=" + f.value }

  function Print(fs: seq<Filter>): string {
    if fs == [] then ""
    else if |fs| == 1 then PrintOne(fs[0])
    else PrintOne(fs[0]) + " OR " + Print(fs[1..])
  }

  /** The words of a value after the first: none of them ends the filter or begins another one. */
  predicate ContinuesValue(words: seq<string>) {
    forall i :: 1 <= i < |words| ==> words[i] != "OR"
  }

  /** A filter that the language can express. */
  predicate WellFormed(f: Filter) {
    && f.name != "" && '=' !in f.name && ' ' !in f.name && f.name[|f.name| - 1] != '\t'
    && f.value != "" && '=' !in f.value && !IsBlank(f.value[0])
    && ContinuesValue(Split(f.value, ' '))
  }

  predicate AllWellFormed(fs: seq<Filter>) {
    forall i :: 0 <= i < |fs| ==> WellFormed(fs[i])
  }

  // ---------- Every parsed list is well-formed ----------

  lemma {:induction false} FirstPieceIsPrefix(s: string, sep: char)
    ensures Split(s, sep)[0] <= s
  {
    if s != "" && s[0] != sep {
      FirstPieceIsPrefix(s[1..], sep);
      assert s == [s[0]] + s[1..];
    }
  }

  lemma {:induction false} PiecesAreTight(s: string, sep: char, i: nat)
    requires Tight(s) && i < |Split(s, sep)|
    ensures Tight(Split(s, sep)[i])
  {
    if s != "" {
      TightTail(s);
      SplitStep(s, sep);
      if s[0] == sep {
        if i > 0 { PiecesAreTight(s[1..], sep, i - 1); }
      } else {
        PiecesAreTight(s[1..], sep, i);
        FirstPieceIsPrefix(s[1..], sep);
        if i == 0 { TightStep(s[0], Split(s[1..], sep)[0]); }
      }
    }
  }

  /** Two selectors are the two sides of the only '=' of the element. */
  lemma TwoSelectors(element: string)
    requires |Split(element, '=')| == 2
    ensures var s := Split(element, '='); element == s[0] + "=" + s[1]
  {
    JoinSplit(element, '=');
  }

  lemma NewFilterIsWellFormed(element: string)
    requires Tight(element) && ' ' !in element && |Split(element, '=')| == 2
    requires var s := Split(element, '='); s[0] != "" && s[1] != ""
    ensures var s := Split(element, '='); WellFormed(Filter(s[0], s[1]))
  {
    var s := Split(element, '=');
    TwoSelectors(element);
    var n := |s[0]|;
    assert element[n - 1] == s[0][n - 1] && element[n] == '=' && element[n + 1] == s[1][0];
    assert forall i :: 0 <= i < |s[1]| ==> s[1][i] == element[n + 1 + i];
    SplitWithoutSeparator(s[1], ' ');
  }

  /** A further word of the value keeps the filter well-formed. */
  lemma LongerFilterIsWellFormed(f: Filter, element: string)
    requires WellFormed(f) && ' ' !in element && '=' !in element && element != "OR"
    ensures WellFormed(f.(value := f.value + " " + element))
  {
    SplitAtSeparator(f.value, ' ', element);
    SplitWithoutSeparator(element, ' ');
    assert f.value + " " + element == f.value + [' '] + element;
  }

  lemma {:induction false} ScannedAreWellFormed(elements: seq<string>, done: seq<Filter>, current: Option<Filter>)
    requires Scan(elements, done, current).Ok?
    requires forall i :: 0 <= i < |elements| ==> Tight(elements[i]) && ' ' !in elements[i]
    requires AllWellFormed(done) && (current.Some? ==> WellFormed(current.value))
    ensures AllWellFormed(Scan(elements, done, current).value)
  {
    if elements != [] {
      var element, rest := elements[0], elements[1..];
      if '=' in element {
        NewFilterIsWellFormed(element);
        var s := Split(element, '=');
        ScannedAreWellFormed(rest, done, Some(Filter(s[0], s[1])));
      } else if element == "OR" {
        ScannedAreWellFormed(rest, done + [current.value], None);
      } else {
        LongerFilterIsWellFormed(current.value, element);
        ScannedAreWellFormed(rest, done, Some(current.value.(value := current.value.value + " " + element)));
      }
    }
  }

  /** Every successful parse yields filters that the language can express. */
  lemma ParsedAreWellFormed(parameter: string)
    requires Parse(parameter).Ok?
    ensures AllWellFormed(Parse(parameter).value)
  {
    if parameter != "" {
      var elements := Split(Normalize(parameter), ' ');
      NormalizedIsTight(parameter);
      forall i | 0 <= i < |elements|
        ensures Tight(elements[i]) && ' ' !in elements[i]
      {
        PiecesAreTight(Normalize(parameter), ' ', i);
      }
      ScannedAreWellFormed(elements, [], None);
    }
  }

  // ---------- Printing and parsing ----------

  /** The elements of one printed filter: name and first word, then the other words of the value. */
  function FilterWords(f: Filter): seq<string> {
    var words := Split(f.value, ' ');
    [f.name + "=" + words[0]] + words[1..]
  }

  function Words(fs: seq<Filter>): seq<string>
    requires fs != []
  {
    if |fs| == 1 then FilterWords(fs[0]) else FilterWords(fs[0]) + ["OR"] + Words(fs[1..])
  }

  lemma {:induction false} SplitAfterPrefix(prefix: string, s: string, sep: char)
    requires sep !in prefix
    ensures Split(prefix + s, sep) == [prefix + Split(s, sep)[0]] + Split(s, sep)[1..]
  {
    var t := prefix + s;
    if prefix == "" {
      assert t == s && prefix + Split(s, sep)[0] == Split(s, sep)[0];
    } else {
      assert t[0] == prefix[0] && t[1..] == prefix[1..] + s;
      SplitAfterPrefix(prefix[1..], s, sep);
      SplitStep(t, sep);
      assert [t[0]] + (prefix[1..] + Split(s, sep)[0]) == prefix + Split(s, sep)[0];
    }
  }

  lemma SplitOne(f: Filter)
    requires WellFormed(f)
    ensures Split(PrintOne(f), ' ') == FilterWords(f)
  {
    assert ' ' !in f.name + "=";
    SplitAfterPrefix(f.name + "=", f.value, ' ');
  }

  lemma {:induction false} SplitPrinted(fs: seq<Filter>)
    requires fs != [] && AllWellFormed(fs)
    ensures Split(Print(fs), ' ') == Words(fs)
  {
    SplitOne(fs[0]);
    if |fs| > 1 {
      var rest := Print(fs[1..]);
      SplitPrinted(fs[1..]);
      SplitAtSeparator("OR", ' ', rest);
      SplitWithoutSeparator("OR", ' ');
      SplitAtSeparator(PrintOne(fs[0]), ' ', "OR" + [' '] + rest);
      assert Print(fs) == PrintOne(fs[0]) + [' '] + ("OR" + [' '] + rest);
      Associative(FilterWords(fs[0]), ["OR"], Words(fs[1..]));
    }
  }

  lemma TightConcatenation(a: string, b: string)
    requires Tight(a) && Tight(b)
    requires a != "" && b != "" ==>
               !(a[|a| - 1] == '=' && IsBlank(b[0])) && !(IsBlank(a[|a| - 1]) && b[0] == '=')
    ensures Tight(a + b)
  {
    var s := a + b;
    forall i | 0 <= i < |s| - 1
      ensures !(s[i] == '=' && IsBlank(s[i + 1])) && !(IsBlank(s[i]) && s[i + 1] == '=')
    {
      assert i >= |a| ==> s[i] == b[i - |a|] && s[i + 1] == b[i + 1 - |a|];
      assert i == |a| - 1 ==> s[i + 1] == b[0];
    }
  }

  lemma {:induction false} PrintedIsTight(fs: seq<Filter>)
    requires fs != [] && AllWellFormed(fs)
    ensures Tight(Print(fs)) && Print(fs) != "" && Print(fs)[0] == fs[0].name[0]
  {
    var f := fs[0];
    assert Tight(f.name) && Tight("=") && Tight(f.value);
    TightConcatenation(f.name, "=");
    TightConcatenation(f.name + "=", f.value);
    if |fs| > 1 {
      PrintedIsTight(fs[1..]);
      assert Tight(" OR ");
      TightConcatenation(PrintOne(f), " OR ");
      TightConcatenation(PrintOne(f) + " OR ", Print(fs[1..]));
    }
  }

  /** Reading the further words of a value. */
  lemma {:induction false} ScanWords(words: seq<string>, rest: seq<string>, done: seq<Filter>, f: Filter)
    requires forall i :: 0 <= i < |words| ==> words[i] != "OR" && '=' !in words[i]
    ensures Scan(words + rest, done, Some(f)) == Scan(rest, done, Some(f.(value := Join([f.value] + words, ' '))))
  {
    if words == [] {
      assert words + rest == rest;
    } else {
      var longer := f.(value := f.value + " " + words[0]);
      assert (words + rest)[0] == words[0] && (words + rest)[1..] == words[1..] + rest;
      ScanWords(words[1..], rest, done, longer);
      JoinMerges(f.value, words);
    }
  }

  lemma JoinMerges(value: string, words: seq<string>)
    requires words != []
    ensures Join([value + " " + words[0]] + words[1..], ' ') == Join([value] + words, ' ')
  {
    assert ([value] + words)[1..] == words;
    var merged := [value + " " + words[0]] + words[1..];
    assert merged[1..] == words[1..];
    if |words| > 1 {
      assert value + " " + words[0] + [' '] + Join(words[1..], ' ') ==
             value + [' '] + (words[0] + [' '] + Join(words[1..], ' '));
    }
  }

  /** Reading the elements of one filter. */
  lemma ScanOne(f: Filter, rest: seq<string>, done: seq<Filter>)
    requires WellFormed(f)
    ensures Scan(FilterWords(f) + rest, done, None) == Scan(rest, done, Some(f))
  {
    var words := Split(f.value, ' ');
    JoinSplit(f.value, ' ');
    FirstPieceIsPrefix(f.value, ' ');
    FirstWordIsNotEmpty(f.value);
    WordsHaveNoEquals(f.value);
    var first := f.name + "=" + words[0];
    SplitAtSeparator(f.name, '=', words[0]);
    SplitWithoutSeparator(f.name, '=');
    SplitWithoutSeparator(words[0], '=');
    assert first == f.name + ['='] + words[0] && first[|f.name|] == '=';
    assert Split(first, '=') == [f.name, words[0]];
    var all := FilterWords(f) + rest;
    assert all[0] == first && all[1..] == words[1..] + rest;
    ScanWords(words[1..], rest, done, Filter(f.name, words[0]));
    assert [words[0]] + words[1..] == words;
  }

  lemma FirstWordIsNotEmpty(value: string)
    requires value != "" && !IsBlank(value[0])
    ensures Split(value, ' ')[0] != ""
  {
    SplitStep(value, ' ');
  }

  lemma {:induction false} WordsHaveNoEquals(value: string)
    requires '=' !in value
    ensures forall i :: 0 <= i < |Split(value, ' ')| ==> '=' !in Split(value, ' ')[i]
  {
    if value != "" {
      WordsHaveNoEquals(value[1..]);
      SplitStep(value, ' ');
    }
  }

  lemma {:induction false} ScanPrinted(fs: seq<Filter>, done: seq<Filter>)
    requires fs != [] && AllWellFormed(fs)
    ensures Scan(Words(fs), done, None) == Ok(done + fs)
  {
    if |fs| == 1 {
      ScanOne(fs[0], [], done);
      assert FilterWords(fs[0]) + [] == FilterWords(fs[0]);
      assert fs == [fs[0]];
    } else {
      var rest := ["OR"] + Words(fs[1..]);
      ScanOne(fs[0], rest, done);
      Associative(FilterWords(fs[0]), ["OR"], Words(fs[1..]));
      assert rest[1..] == Words(fs[1..]);
      ScanPrinted(fs[1..], done + [fs[0]]);
      assert done + [fs[0]] + fs[1..] == done + fs;
    }
  }

  lemma WellFormedParsesBack(fs: seq<Filter>)
    requires fs != [] && AllWellFormed(fs)
    ensures Parse(Print(fs)) == Ok(fs)
  {
    hide Print, Scan, Split, Normalize, WellFormed, Words;
    PrintedIsTight(fs);
    TightIsNormalized(Print(fs));
    SplitPrinted(fs);
    ScanPrinted(fs, []);
    assert [] + fs == fs;
  }

  /**
   * The round trip, exactly: printing and parsing gives back a list of filters if and only if
   * each of them is well-formed.
   */
  lemma PrintedParsesBack(fs: seq<Filter>)
    ensures Parse(Print(fs)) == Ok(fs) <==> AllWellFormed(fs)
  {
    if AllWellFormed(fs) && fs != [] {
      WellFormedParsesBack(fs);
    }
    if Parse(Print(fs)) == Ok(fs) {
      ParsedAreWellFormed(Print(fs));
    }
  }

  /** Parsing, printing and parsing again is the same as parsing. */
  lemma ParsePrintParse(parameter: string)
    requires Parse(parameter).Ok?
    ensures Parse(Print(Parse(parameter).value)) == Parse(parameter)
  {
    ParsedAreWellFormed(parameter);
    PrintedParsesBack(Parse(parameter).value);
  }
}
