/** The order-by parameter of the list operations: parser and printer. */
module Ordering {
  import opened Prelude
  import opened Text

  datatype OrderBy = OrderBy(name: string, isDescending: bool)

  // ---------- The parser ----------

  predicate AllSpaces(s: string) {
    forall i :: 0 <= i < |s| ==> s[i] == ' '
  }

  function TrimLeft(s: string): (r: string)
    ensures |r| <= |s| && (forall c :: c in r ==> c in s) && (r != "" ==> r[0] != ' ')
    ensures (s == "" || s[0] != ' ') ==> r == s
    ensures r == "" <==> AllSpaces(s)
  {
    if s != "" && s[0] == ' ' then
      assert s == [' '] + s[1..];
      TrimLeft(s[1..])
    else s
  }

  function TrimRight(s: string): (r: string)
    ensures r <= s && (r != "" ==> r[|r| - 1] != ' ')
    ensures (s == "" || s[|s| - 1] != ' ') ==> r == s
    ensures r == "" <==> AllSpaces(s)
  {
    if s != "" && s[|s| - 1] == ' ' then
      assert s == s[..|s| - 1] + [' '];
      TrimRight(s[..|s| - 1])
    else s
  }

  /** strings.Trim(s, " "). */
  function Trim(s: string): string { TrimRight(TrimLeft(s)) }

  function ParseElement(element: string): Result<OrderBy> {
    var direction := Split(Trim(element), ' ');
    if |direction| > 2 then Err(InvalidArgument)
    else if |direction| == 2 && direction[1] != "asc" && direction[1] != "desc" then Err(InvalidArgument)
    else Ok(OrderBy(direction[0], |direction| == 2 && direction[1] == "desc"))
  }

  function ParseElements(elements: seq<string>): Result<seq<OrderBy>> {
    if elements == [] then Ok([])
    else
      var last := |elements| - 1;
      var before :- ParseElements(elements[..last]);
      var o :- ParseElement(elements[last]);
      Ok(before + [o])
  }

  function Parse(parameter: string): Result<seq<OrderBy>> {
    if parameter == "" then Ok([]) else ParseElements(Split(parameter, ','))
  }

  method ParseOrderBy(parameter: string) returns (r: Result<seq<OrderBy>>)
    ensures r == Parse(parameter)
  {
    if parameter == "" {
      return Ok([]);
    }
    var elements := Split(parameter, ',');
    var orderBys: seq<OrderBy> := [];
    for i := 0 to |elements|
      invariant ParseElements(elements[..i]) == Ok(orderBys)
    {
      assert elements[..i + 1][..i] == elements[..i];
      var descending := false;
      var direction := Split(Trim(elements[i]), ' ');
      if |direction| > 2 {
        FirstErrorDecides(elements, i + 1);
        return Err(InvalidArgument);
      }
      if |direction| == 2 {
        if direction[1] == "asc" {
          descending := false;
        } else if direction[1] == "desc" {
          descending := true;
        } else {
          FirstErrorDecides(elements, i + 1);
          return Err(InvalidArgument);
        }
      }
      orderBys := orderBys + [OrderBy(direction[0], descending)];
    }
    assert elements[..|elements|] == elements;
    return Ok(orderBys);
  }

  /** An error in a first part of the elements is the error of all. */
  lemma {:induction false} FirstErrorDecides(elements: seq<string>, n: nat)
    requires n <= |elements| && ParseElements(elements[..n]).Err?
    ensures ParseElements(elements) == ParseElements(elements[..n])
  {
    if n == |elements| {
      assert elements[..n] == elements;
    } else {
      var last := |elements| - 1;
      assert elements[..last][..n] == elements[..n];
      FirstErrorDecides(elements[..last], n);
    }
  }

  // ---------- The printer ----------

  function PrintElement(o: OrderBy): string {
    if o.isDescending then o.name + " desc" else o.name
  }

  function Print(os: seq<OrderBy>): string { Join(MapSeq(PrintElement, os), ',') }

  /** What an element of the language can express. */
  predicate WellFormed(o: OrderBy) {
    ',' !in o.name && ' ' !in o.name && (o.name == "" ==> !o.isDescending)
  }

  predicate AllWellFormed(os: seq<OrderBy>) {
    forall i :: 0 <= i < |os| ==> WellFormed(os[i])
  }

  /** The one list that prints as the empty parameter although it is not empty. */
  const BLANK := [OrderBy("", false)]

  // ---------- The round trip ----------

  lemma ParsedElementIsWellFormed(element: string)
    requires ',' !in element && ParseElement(element).Ok?
    ensures WellFormed(ParseElement(element).value)
  {
    var t := Trim(element);
    var direction := Split(t, ' ');
    assert ',' !in t;
    FirstPieceOf(t, ' ');
    if t == "" {
      assert |direction| == 1;
    }
  }

  lemma FirstPieceOf(s: string, sep: char)
    ensures forall c :: c in Split(s, sep)[0] ==> c in s
    ensures s != "" && s[0] != sep ==> Split(s, sep)[0] != ""
  {
    JoinSplit(s, sep);
    SplitStep(s, sep);
    var r := Split(s, sep);
    if |r| > 1 {
      assert s == r[0] + ([sep] + Join(r[1..], sep));
    }
  }

  lemma PrintedElement(o: OrderBy)
    requires WellFormed(o)
    ensures ParseElement(PrintElement(o)) == Ok(o) && ',' !in PrintElement(o)
  {
    hide Split, TrimLeft, TrimRight;
    SplitWithoutSeparator(o.name, ' ');
    if o.isDescending {
      SplitAtSeparator(o.name, ' ', "desc");
      SplitWithoutSeparator("desc", ' ');
      var s := PrintElement(o);
      assert s == o.name + [' '] + "desc";
      assert s[0] == o.name[0] && s[|s| - 1] == 'c';
      assert Trim(s) == s;
    } else {
      assert Trim(o.name) == o.name;
    }
  }

  lemma {:induction false} SplitJoin(pieces: seq<string>, sep: char)
    requires pieces != [] && forall i :: 0 <= i < |pieces| ==> sep !in pieces[i]
    ensures Split(Join(pieces, sep), sep) == pieces
  {
    SplitWithoutSeparator(pieces[0], sep);
    if |pieces| == 1 {
      assert pieces == [pieces[0]];
    } else {
      SplitJoin(pieces[1..], sep);
      SplitAtSeparator(pieces[0], sep, Join(pieces[1..], sep));
      assert pieces == [pieces[0]] + pieces[1..];
    }
  }

  lemma {:induction false} PrintedElements(os: seq<OrderBy>)
    requires AllWellFormed(os)
    ensures ParseElements(MapSeq(PrintElement, os)) == Ok(os)
  {
    hide ParseElement, PrintElement;
    if os != [] {
      var last := |os| - 1;
      PrintedElements(os[..last]);
      PrintedElement(os[last]);
      assert MapSeq(PrintElement, os)[..last] == MapSeq(PrintElement, os[..last]);
      assert os == os[..last] + [os[last]];
    }
  }

  lemma {:induction false} ParsedElementsAreWellFormed(elements: seq<string>)
    requires ParseElements(elements).Ok? && forall i :: 0 <= i < |elements| ==> ',' !in elements[i]
    ensures AllWellFormed(ParseElements(elements).value) && |ParseElements(elements).value| == |elements|
  {
    if elements != [] {
      var last := |elements| - 1;
      ParsedElementsAreWellFormed(elements[..last]);
      ParsedElementIsWellFormed(elements[last]);
    }
  }

  lemma ParsedAreWellFormed(parameter: string)
    requires Parse(parameter).Ok?
    ensures AllWellFormed(Parse(parameter).value)
  {
    if parameter != "" {
      ParsedElementsAreWellFormed(Split(parameter, ','));
    }
  }

  lemma {:induction false} JoinIsEmpty(pieces: seq<string>, sep: char)
    requires pieces != []
    ensures Join(pieces, sep) == "" <==> pieces == [""]
  {
    if |pieces| == 1 {
      assert pieces == [pieces[0]];
    }
  }

  lemma OnlyBlankPrintsEmpty(os: seq<OrderBy>)
    requires os != [] && AllWellFormed(os)
    ensures Print(os) == "" <==> os == BLANK
  {
    var pieces := MapSeq(PrintElement, os);
    JoinIsEmpty(pieces, ',');
    if pieces == [""] {
      assert PrintElement(os[0]) == "";
      assert os == BLANK;
    }
    if os == BLANK {
      assert pieces == [PrintElement(os[0])];
    }
  }

  /** The round trip, exactly: it holds for the well-formed lists other than the blank one. */
  lemma PrintedParsesBack(os: seq<OrderBy>)
    ensures Parse(Print(os)) == Ok(os) <==> AllWellFormed(os) && os != BLANK
  {
    if Parse(Print(os)) == Ok(os) {
      ParsedAreWellFormed(Print(os));
    }
    if AllWellFormed(os) && os != [] {
      OnlyBlankPrintsEmpty(os);
      if os != BLANK {
        WellFormedParsesBack(os);
      }
    }
  }

  lemma WellFormedParsesBack(os: seq<OrderBy>)
    requires AllWellFormed(os) && Print(os) != ""
    ensures Parse(Print(os)) == Ok(os)
  {
    var pieces := MapSeq(PrintElement, os);
    forall i | 0 <= i < |pieces|
      ensures ',' !in pieces[i]
    {
      PrintedElement(os[i]);
    }
    SplitJoin(pieces, ',');
    PrintedElements(os);
  }

  /**
   * Parsing, printing and parsing again is the same as parsing, except exactly for a parameter
   * made of spaces alone, which parses as one attribute without a name.
   */
  lemma ParsePrintParse(parameter: string)
    requires Parse(parameter).Ok?
    ensures Parse(Print(Parse(parameter).value)) == Parse(parameter) <==>
            parameter == "" || !AllSpaces(parameter)
  {
    ParsedAreWellFormed(parameter);
    PrintedParsesBack(Parse(parameter).value);
    if parameter != "" {
      BlankParameter(parameter);
    }
  }

  lemma BlankParameter(parameter: string)
    requires parameter != "" && Parse(parameter).Ok?
    ensures Parse(parameter).value == BLANK <==> AllSpaces(parameter)
  {
    var elements := Split(parameter, ',');
    ParsedElementsAreWellFormed(elements);
    if |elements| == 1 {
      JoinSplit(parameter, ',');
      assert elements == [parameter];
      OneElement(parameter);
      FirstPieceOf(Trim(parameter), ' ');
      assert Trim(parameter) == "" <==> AllSpaces(parameter) by { TrimIsEmpty(parameter); }
    } else {
      if ',' !in parameter { SplitWithoutSeparator(parameter, ','); }
    }
  }

  lemma TrimIsEmpty(s: string)
    ensures Trim(s) == "" <==> AllSpaces(s)
    ensures Trim(s) != "" ==> Trim(s)[0] != ' '
  {
    var t := TrimLeft(s);
    assert t != "" ==> !AllSpaces(t);
  }

  lemma OneElement(element: string)
    ensures ParseElement(element).Ok? ==> ParseElements([element]) == Ok([ParseElement(element).value])
    ensures ParseElement(element).Err? ==> ParseElements([element]).Err?
    ensures Trim(element) == "" ==> ParseElement(element) == Ok(OrderBy("", false))
    ensures Trim(element) != "" && ParseElement(element).Ok? ==> ParseElement(element).value.name != ""
  {
    assert [element][..0] == [];
    assert ParseElement(element).Ok? ==> [] + [ParseElement(element).value] == [ParseElement(element).value];
    TrimIsEmpty(element);
    FirstPieceOf(Trim(element), ' ');
  }

  // ---------- Exactly what is parsed ----------

  /** The text ends with t, and only spaces come before it. */
  predicate PaddedLeft(s: string, t: string) {
    |t| <= |s| && s[|s| - |t|..] == t && AllSpaces(s[..|s| - |t|])
  }

  /** The text begins with t, and only spaces come after it. */
  predicate PaddedRight(s: string, t: string) {
    |t| <= |s| && s[..|t|] == t && AllSpaces(s[|t|..])
  }

  lemma PaddedLeftStep(s: string, t: string)
    requires s != "" && (t == "" || t[0] != ' ')
    ensures s[0] == ' ' ==> (PaddedLeft(s, t) <==> PaddedLeft(s[1..], t))
    ensures s[0] != ' ' ==> (PaddedLeft(s, t) <==> s == t)
  {
    if |t| < |s| {
      var n := |s| - |t|;
      assert s[..n] == [s[0]] + s[1..][..n - 1] && s[1..][n - 1..] == s[n..];
    }
    assert s[0..] == s;
  }

  lemma PaddedRightStep(s: string, t: string)
    requires s != "" && (t == "" || t[|t| - 1] != ' ')
    ensures s[|s| - 1] == ' ' ==> (PaddedRight(s, t) <==> PaddedRight(s[..|s| - 1], t))
    ensures s[|s| - 1] != ' ' ==> (PaddedRight(s, t) <==> s == t)
  {
    var last := |s| - 1;
    if |t| < |s| {
      assert s[|t|..] == s[..last][|t|..] + [s[last]] && s[..last][..|t|] == s[..|t|];
    }
    assert s[..|s|] == s;
  }

  lemma {:induction false} TrimLeftIff(s: string, t: string)
    requires t == "" || t[0] != ' '
    ensures TrimLeft(s) == t <==> PaddedLeft(s, t)
  {
    hide PaddedLeft;
    if s == "" {
      EmptyIsPadded(t);
    } else {
      PaddedLeftStep(s, t);
      if s[0] == ' ' {
        TrimLeftIff(s[1..], t);
      }
    }
  }

  lemma {:induction false} TrimRightIff(s: string, t: string)
    requires t == "" || t[|t| - 1] != ' '
    ensures TrimRight(s) == t <==> PaddedRight(s, t)
  {
    hide PaddedRight;
    if s == "" {
      EmptyIsPadded(t);
    } else {
      PaddedRightStep(s, t);
      if s[|s| - 1] == ' ' {
        TrimRightIff(s[..|s| - 1], t);
      }
    }
  }

  lemma EmptyIsPadded(t: string)
    ensures (PaddedLeft("", t) <==> t == "") && (PaddedRight("", t) <==> t == "")
  {
  }

  /** The element between spaces. */
  ghost predicate IsPadded(element: string, t: string) {
    exists before, after :: AllSpaces(before) && AllSpaces(after) && element == before + t + after
  }

  /** A text without spaces at its ends is what trimming a padded form of it gives. */
  lemma TrimIff(element: string, t: string)
    requires t == "" || (t[0] != ' ' && t[|t| - 1] != ' ')
    ensures Trim(element) == t <==> IsPadded(element, t)
  {
    hide TrimLeft, TrimRight, PaddedLeft, PaddedRight, AllSpaces;
    var l := TrimLeft(element);
    TrimLeftIff(element, l);
    TrimRightIff(l, t);
    if Trim(element) == t {
      LeftPart(element, l);
      RightPart(l, t);
      Associative(element[..|element| - |l|], t, l[|t|..]);
      assert element == element[..|element| - |l|] + t + l[|t|..];
    }
    if IsPadded(element, t) {
      var before, after :| AllSpaces(before) && AllSpaces(after) && element == before + t + after;
      if t == "" {
        OnlySpaces(before, t, after);
        TrimIsEmpty(element);
      } else {
        Associative(before, t, after);
        Pads(before, t + after);
        Pads(after, t);
        TrimLeftIff(element, t + after);
      }
    }
  }

  lemma LeftPart(s: string, t: string)
    requires PaddedLeft(s, t)
    ensures |t| <= |s| && AllSpaces(s[..|s| - |t|]) && s == s[..|s| - |t|] + t
  {
  }

  lemma RightPart(s: string, t: string)
    requires PaddedRight(s, t)
    ensures |t| <= |s| && AllSpaces(s[|t|..]) && s == t + s[|t|..]
  {
  }

  lemma OnlySpaces(before: string, t: string, after: string)
    requires AllSpaces(before) && AllSpaces(after) && t == ""
    ensures AllSpaces(before + t + after)
  {
  }

  lemma Pads(spaces: string, t: string)
    requires AllSpaces(spaces)
    ensures PaddedLeft(spaces + t, t) && PaddedRight(t + spaces, t)
  {
    assert (spaces + t)[..|spaces|] == spaces && (t + spaces)[|t|..] == spaces;
  }

  /** The forms of an ascending or descending element: the direction may be left out if it is ascending. */
  ghost predicate IsForm(t: string, o: OrderBy) {
    if o.isDescending then t == o.name + " desc" else t == o.name || t == o.name + " asc"
  }

  lemma {:induction false} SplitInTwo(t: string, x: string, y: string)
    requires ' ' !in x && ' ' !in y
    ensures Split(t, ' ') == [x] <==> t == x
    ensures Split(t, ' ') == [x, y] <==> t == x + " " + y
  {
    JoinSplit(t, ' ');
    SplitWithoutSeparator(x, ' ');
    SplitWithoutSeparator(y, ' ');
    SplitAtSeparator(x, ' ', y);
    assert x + " " + y == x + [' '] + y;
    assert Join([x], ' ') == x;
    assert [x, y][1..] == [y];
    assert Join([x, y], ' ') == x + [' '] + y;
  }

  lemma DirectionOf(t: string, o: OrderBy)
    requires t == "" || t[0] != ' '
    ensures var d := Split(t, ' ');
            (|d| <= 2 && (|d| == 2 ==> d[1] == "asc" || d[1] == "desc") &&
             o == OrderBy(d[0], |d| == 2 && d[1] == "desc")) <==>
            ' ' !in o.name && (o.name == "" ==> t == "" && !o.isDescending) && IsForm(t, o)
  {
    hide Split;
    var d := Split(t, ' ');
    SplitStep(t, ' ');
    if ' ' !in o.name {
      SplitInTwo(t, o.name, "asc");
      SplitInTwo(t, o.name, "desc");
    }
    assert |d| == 1 ==> d == [d[0]];
    assert |d| == 2 ==> d == [d[0], d[1]];
    FirstPieceOf(t, ' ');
    if o.name == "" && t != "" {
      assert d[0] != "";
    }
  }

  /**
   * Exactly what one element means: between spaces, the name alone or with "asc" is ascending, the name
   * with "desc" descending; only spaces stand for an attribute without a name.
   */
  lemma ElementIff(element: string, o: OrderBy)
    ensures ParseElement(element) == Ok(o) <==>
            ' ' !in o.name &&
            exists t :: IsForm(t, o) && (o.name == "" ==> t == "" && !o.isDescending) && IsPadded(element, t)
  {
    hide Split, IsPadded, Trim;
    var t := Trim(element);
    TrimEnds(element);
    TrimIff(element, t);
    DirectionOf(t, o);
    if ' ' !in o.name && exists t :: IsForm(t, o) && (o.name == "" ==> t == "" && !o.isDescending) &&
                                      IsPadded(element, t) {
      var t' :| IsForm(t', o) && (o.name == "" ==> t' == "" && !o.isDescending) && IsPadded(element, t');
      FormEnds(t', o);
      TrimIff(element, t');
    }
  }

  lemma TrimEnds(s: string)
    ensures var t := Trim(s); t == "" || (t[0] != ' ' && t[|t| - 1] != ' ')
  {
    TrimIsEmpty(s);
  }

  lemma FormEnds(t: string, o: OrderBy)
    requires ' ' !in o.name && IsForm(t, o) && (o.name == "" ==> t == "")
    ensures t == "" || (t[0] != ' ' && t[|t| - 1] != ' ')
  {
    if t != "" {
      assert t[0] == o.name[0];
      assert t[|t| - 1] == 'c' || t == o.name;
    }
  }

  /** So a plain name is ascending by itself and with "asc", and descending with "desc". */
  lemma DirectionsAreRead(name: string)
    requires name != "" && ' ' !in name && ',' !in name
    ensures Parse(name) == Ok([OrderBy(name, false)])
    ensures Parse(name + " asc") == Ok([OrderBy(name, false)])
    ensures Parse(name + " desc") == Ok([OrderBy(name, true)])
  {
    hide ParseElement, ParseElements;
    forall t | t == name || t == name + " asc" || t == name + " desc"
      ensures Parse(t) == Ok([OrderBy(name, t == name + " desc")])
    {
      var o := OrderBy(name, t == name + " desc");
      assert AllSpaces("") && t == "" + t + "";
      assert IsForm(t, o) && IsPadded(t, t);
      ElementIff(t, o);
      SplitWithoutSeparator(t, ',');
      OneElement(t);
    }
    assert name + " asc" != name + " desc" by {
      assert (name + " asc")[|name| + 1] == 'a' && (name + " desc")[|name| + 1] == 'd';
    }
  }

  /** A parameter is read element by element. */
  lemma {:induction false} ElementsIff(elements: seq<string>, os: seq<OrderBy>)
    ensures ParseElements(elements) == Ok(os) <==>
            |os| == |elements| && forall i :: 0 <= i < |os| ==> ParseElement(elements[i]) == Ok(os[i])
  {
    hide ParseElement;
    if elements != [] {
      var last := |elements| - 1;
      if ParseElements(elements) == Ok(os) {
        var before := ParseElements(elements[..last]).value;
        ElementsIff(elements[..last], before);
        assert os == before + [os[last]];
      }
      if |os| == |elements| {
        ElementsIff(elements[..last], os[..last]);
        assert os == os[..last] + [os[last]];
      }
    }
  }
}
