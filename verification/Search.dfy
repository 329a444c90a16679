/** What the filters of a listing select: LIKE predicates against the pieces of the filter value. */
module Search {
  import opened Prelude
  import opened Text
  import opened Filter

  // ---------- LIKE ----------

  /** SQL LIKE: '%' stands for any text, '_' for any character, a backslash escapes the next one. */
  predicate Like(s: string, pattern: string)
    decreases |s| + |pattern|
  {
    if pattern == "" then s == ""
    else if pattern[0] == '%' then Like(s, pattern[1..]) || (s != "" && Like(s[1..], pattern))
    else if s == "" then false
    else if pattern[0] == '_' then Like(s[1..], pattern[1..])
    else if pattern[0] == '\\' then |pattern| > 1 && s[0] == pattern[1] && Like(s[1..], pattern[2..])
    else s[0] == pattern[0] && Like(s[1..], pattern[1..])
  }

  /** The text has no character with a meaning of its own in a pattern. */
  predicate IsLiteral(s: string) {
    '%' !in s && '_' !in s && '\\' !in s
  }

  lemma {:induction false} LikeLiteral(s: string, literal: string, pattern: string)
    requires IsLiteral(literal)
    ensures Like(s, literal + pattern) <==> literal <= s && Like(s[|literal|..], pattern)
  {
    if literal == "" {
      assert literal + pattern == pattern && s[0..] == s;
    } else {
      var p := literal + pattern;
      assert p[0] == literal[0] && p[1..] == literal[1..] + pattern;
      if s != "" && s[0] == literal[0] {
        LikeLiteral(s[1..], literal[1..], pattern);
        assert literal <= s <==> literal[1..] <= s[1..];
        assert literal <= s ==> s[1..][|literal| - 1..] == s[|literal|..];
      }
    }
  }

  /** Some rest of the text matches the pattern. */
  predicate SomeSuffixLike(s: string, pattern: string) {
    exists i :: 0 <= i <= |s| && Like(s[i..], pattern)
  }

  lemma {:induction false} LikePercent(s: string, pattern: string)
    ensures Like(s, "%" + pattern) <==> SomeSuffixLike(s, pattern)
  {
    var p := "%" + pattern;
    assert p[1..] == pattern;
    assert s[0..] == s;
    if s != "" {
      LikePercent(s[1..], pattern);
      if SomeSuffixLike(s[1..], pattern) {
        var i :| 0 <= i <= |s[1..]| && Like(s[1..][i..], pattern);
        assert s[i + 1..] == s[1..][i..];
      }
      if SomeSuffixLike(s, pattern) && !Like(s, pattern) {
        var i :| 0 <= i <= |s| && Like(s[i..], pattern);
        assert s[i..] == s[1..][i - 1..];
      }
    }
  }

  // ---------- Pieces in order ----------

  /** The piece stands in the text at the position. */
  predicate StandsAt(piece: string, s: string, at: int) {
    0 <= at && at + |piece| <= |s| && s[at..at + |piece|] == piece
  }

  /** The positions place all pieces in the text, from `from` on, in order and without overlap. */
  ghost predicate Places(pieces: seq<string>, s: string, from: nat, at: seq<nat>) {
    && |at| == |pieces|
    && (forall j :: 0 <= j < |at| ==> StandsAt(pieces[j], s, at[j]))
    && (at != [] ==> from <= at[0])
    && (forall j :: 0 < j < |at| ==> at[j] >= at[j - 1] + |pieces[j - 1]|)
  }

  ghost predicate OccurInOrder(pieces: seq<string>, s: string, from: nat) {
    exists at :: Places(pieces, s, from, at)
  }

  /** The first piece stands at the position, and the others follow. */
  ghost predicate FirstAt(pieces: seq<string>, s: string, i: nat)
    requires pieces != []
  {
    StandsAt(pieces[0], s, i) && OccurInOrder(pieces[1..], s, i + |pieces[0]|)
  }

  lemma OccurStep(pieces: seq<string>, s: string, from: nat)
    requires pieces != []
    ensures OccurInOrder(pieces, s, from) <==> exists i :: from <= i && FirstAt(pieces, s, i)
  {
    if OccurInOrder(pieces, s, from) {
      var at :| Places(pieces, s, from, at);
      RestIsPlaced(pieces, s, from, at);
      assert from <= at[0] && FirstAt(pieces, s, at[0]);
    }
    if i :| from <= i && FirstAt(pieces, s, i) {
      var rest :| Places(pieces[1..], s, i + |pieces[0]|, rest);
      AllArePlaced(pieces, s, from, i, rest);
    }
  }

  lemma OnePieceStands(piece: string, s: string, from: nat)
    ensures OccurInOrder([piece], s, from) ==> exists i :: StandsAt(piece, s, i)
  {
    if OccurInOrder([piece], s, from) {
      var at :| Places([piece], s, from, at);
      assert StandsAt([piece][0], s, at[0]);
    }
  }

  lemma RestIsPlaced(pieces: seq<string>, s: string, from: nat, at: seq<nat>)
    requires pieces != [] && Places(pieces, s, from, at)
    ensures Places(pieces[1..], s, at[0] + |pieces[0]|, at[1..])
  {
    var rest, later := pieces[1..], at[1..];
    forall j | 0 <= j < |later|
      ensures StandsAt(rest[j], s, later[j])
      ensures later[j] >= if j == 0 then at[0] + |pieces[0]| else later[j - 1] + |rest[j - 1]|
    {
      assert later[j] == at[j + 1] && rest[j] == pieces[j + 1];
      assert j > 0 ==> later[j - 1] == at[j];
    }
  }

  lemma AllArePlaced(pieces: seq<string>, s: string, from: nat, i: nat, rest: seq<nat>)
    requires pieces != [] && from <= i && StandsAt(pieces[0], s, i) && Places(pieces[1..], s, i + |pieces[0]|, rest)
    ensures Places(pieces, s, from, [i] + rest)
  {
    var at := [i] + rest;
    forall j | 0 <= j < |at|
      ensures StandsAt(pieces[j], s, at[j])
      ensures j > 0 ==> at[j] >= at[j - 1] + |pieces[j - 1]|
    {
      if j > 0 {
        assert at[j] == rest[j - 1] && pieces[j] == pieces[1..][j - 1];
        assert StandsAt(pieces[1..][j - 1], s, rest[j - 1]);
      }
    }
  }

  /** The pattern that asks for the pieces in order, with any text around and between them. */
  function Pattern(pieces: seq<string>): string {
    if pieces == [] then "%" else "%" + pieces[0] + Pattern(pieces[1..])
  }

  lemma {:induction false} LikeAnything(s: string)
    ensures Like(s, "%")
  {
    if s != "" {
      LikeAnything(s[1..]);
    }
  }

  lemma {:induction false} LikePieces(s: string, from: nat, pieces: seq<string>)
    requires from <= |s| && forall i :: 0 <= i < |pieces| ==> IsLiteral(pieces[i])
    ensures Like(s[from..], Pattern(pieces)) <==> OccurInOrder(pieces, s, from)
    decreases |pieces|
  {
    if pieces == [] {
      LikeAnything(s[from..]);
      assert Places(pieces, s, from, []);
    } else {
      var tail, t := pieces[0] + Pattern(pieces[1..]), s[from..];
      assert Pattern(pieces) == "%" + tail;
      LikePercent(t, tail);
      OccurStep(pieces, s, from);
      if SomeSuffixLike(t, tail) {
        var i :| 0 <= i <= |t| && Like(t[i..], tail);
        assert t[i..] == s[from + i..];
        LikeFirstPiece(s, from + i, pieces);
      }
      if i :| from <= i && FirstAt(pieces, s, i) {
        assert t[i - from..] == s[i..];
        LikeFirstPiece(s, i, pieces);
      }
    }
  }

  lemma {:induction false} LikeFirstPiece(s: string, at: nat, pieces: seq<string>)
    requires at <= |s| && pieces != [] && forall i :: 0 <= i < |pieces| ==> IsLiteral(pieces[i])
    ensures Like(s[at..], pieces[0] + Pattern(pieces[1..])) <==> FirstAt(pieces, s, at)
    decreases |pieces|, 0
  {
    LikeLiteral(s[at..], pieces[0], Pattern(pieces[1..]));
    if at + |pieces[0]| <= |s| {
      assert s[at..][|pieces[0]|..] == s[at + |pieces[0]|..];
      assert s[at..][..|pieces[0]|] == s[at..at + |pieces[0]|];
      LikePieces(s, at + |pieces[0]|, pieces[1..]);
    }
  }

  // ---------- The predicate of a filter ----------

  /** strings.ReplaceAll(value, "*", "%"). */
  function ReplaceStars(value: string): string {
    seq(|value|, i requires 0 <= i < |value| => if value[i] == '*' then '%' else value[i])
  }

  function LikeValue(value: string): string {
    "%" + ToLower(ReplaceStars(value)) + "%"
  }

  /** The lower-cased pieces of a filter value between its stars. */
  function Pieces(value: string): seq<string> {
    MapSeq(ToLower, Split(value, '*'))
  }

  lemma {:induction false} LikeValueIsPattern(value: string)
    ensures LikeValue(value) == Pattern(Pieces(value))
  {
    if value == "" {
      assert Pieces(value) == [""];
      assert Pattern([""]) == "%" + "" + "%";
    } else {
      LikeValueIsPattern(value[1..]);
      LikeValueStep(value);
      PiecesStep(value);
      PatternStep(Pieces(value[1..]), LowerChar(value[0]));
    }
  }

  lemma LikeValueStep(value: string)
    requires value != ""
    ensures LikeValue(value) ==
            if value[0] == '*' then "%" + LikeValue(value[1..])
            else "%" + [LowerChar(value[0])] + LikeValue(value[1..])[1..]
  {
  }

  lemma LowerFirst(c: char, s: string)
    ensures ToLower([c] + s) == [LowerChar(c)] + ToLower(s)
  {
  }

  lemma LowerPieces(first: string, rest: seq<string>)
    ensures MapSeq(ToLower, [first] + rest) == [ToLower(first)] + MapSeq(ToLower, rest)
  {
  }

  lemma PiecesStep(value: string)
    requires value != ""
    ensures var r := Pieces(value[1..]);
            Pieces(value) == if value[0] == '*' then [""] + r else [[LowerChar(value[0])] + r[0]] + r[1..]
  {
    hide Split;
    SplitStep(value, '*');
    var r, c := Split(value[1..], '*'), value[0];
    assert r == [r[0]] + r[1..];
    LowerPieces(r[0], r[1..]);
    LowerPieces("", r);
    LowerPieces([c] + r[0], r[1..]);
    LowerFirst(c, r[0]);
  }

  lemma PatternStep(pieces: seq<string>, c: char)
    requires pieces != []
    ensures Pattern([""] + pieces) == "%" + Pattern(pieces)
    ensures Pattern([[c] + pieces[0]] + pieces[1..]) == "%" + [c] + Pattern(pieces)[1..]
  {
    hide Pattern;
    PatternOf("", pieces);
    PatternOf(pieces[0], pieces[1..]);
    PatternOf([c] + pieces[0], pieces[1..]);
    assert pieces == [pieces[0]] + pieces[1..];
  }

  lemma PatternOf(first: string, rest: seq<string>)
    ensures Pattern([first] + rest) == "%" + first + Pattern(rest)
  {
    assert ([first] + rest)[1..] == rest;
  }

  lemma {:induction false} PiecesAreLiteral(value: string)
    requires IsLiteral(value)
    ensures forall i :: 0 <= i < |Pieces(value)| ==> IsLiteral(Pieces(value)[i])
  {
    forall i | 0 <= i < |Pieces(value)|
      ensures IsLiteral(Pieces(value)[i])
    {
      PieceIsPart(value, i);
    }
  }

  lemma {:induction false} PieceIsPart(value: string, i: nat)
    requires i < |Split(value, '*')|
    ensures forall c :: c in Split(value, '*')[i] ==> c in value
  {
    if value != "" {
      SplitStep(value, '*');
      if value[0] != '*' {
        PieceIsPart(value[1..], i);
      } else if i > 0 {
        PieceIsPart(value[1..], i - 1);
      }
    }
  }

  /**
   * What one filter selects: a column value matches if and only if the pieces of the filter value,
   * split at the stars, occur in it in order, without overlap and regardless of case.
   */
  lemma FilterMeaning(column: string, value: string)
    requires IsLiteral(value)
    ensures Like(ToLower(column), LikeValue(value)) <==> OccurInOrder(Pieces(value), ToLower(column), 0)
  {
    LikeValueIsPattern(value);
    PiecesAreLiteral(value);
    LikePieces(ToLower(column), 0, Pieces(value));
    assert ToLower(column)[0..] == ToLower(column);
  }

  // ---------- Exactly the literal values mean their pieces ----------

  /** What a character of the value stands for in the pattern. */
  function PatternChar(c: char): char { LowerChar(if c == '*' then '%' else c) }

  /** The shortest text that the pattern of the value accepts. */
  function Shortest(value: string): string {
    if value == "" then ""
    else if value[0] == '*' || value[0] == '%' then Shortest(value[1..])
    else if value[0] == '_' then "a" + Shortest(value[1..])
    else if value[0] == '\\' then
      if |value| == 1 then "%" else [PatternChar(value[1])] + Shortest(value[2..])
    else [LowerChar(value[0])] + Shortest(value[1..])
  }

  function Body(value: string): string { ToLower(ReplaceStars(value)) }

  lemma BodyStep(value: string)
    requires value != ""
    ensures Body(value) == [PatternChar(value[0])] + Body(value[1..])
    ensures |value| > 1 ==> Body(value)[1..] == [PatternChar(value[1])] + Body(value[2..])
  {
    assert |value| > 1 ==> value[1..][1..] == value[2..];
  }

  lemma {:induction false} ShortestIsLike(value: string)
    ensures Like(Shortest(value), Body(value) + "%")
  {
    if value == "" {
      assert Body(value) + "%" == "%";
      LikeAnything("");
    } else {
      BodyStep(value);
      var p := Body(value) + "%";
      var s := Shortest(value);
      assert p == [PatternChar(value[0])] + (Body(value[1..]) + "%") && p[1..] == Body(value[1..]) + "%";
      if value[0] == '\\' {
        if |value| == 1 {
          assert Body(value[1..]) == "" && p == "\\%";
          assert p[2..] == "" && s[1..] == "";
        } else {
          ShortestIsLike(value[2..]);
          assert p[1] == PatternChar(value[1]) && p[2..] == Body(value[2..]) + "%";
          assert s[1..] == Shortest(value[2..]);
        }
      } else {
        ShortestIsLike(value[1..]);
        if value[0] != '*' && value[0] != '%' {
          assert s[1..] == Shortest(value[1..]);
        }
      }
    }
  }

  lemma {:induction false} ShortestIsLower(value: string)
    ensures ToLower(Shortest(value)) == Shortest(value)
  {
    if value != "" {
      ShortestIsLower(value[1..]);
      if |value| > 1 { ShortestIsLower(value[2..]); }
      var s := Shortest(value);
      forall i | 0 <= i < |s|
        ensures LowerChar(s[i]) == s[i]
      {
        var t := if value[0] == '\\' && |value| > 1 then Shortest(value[2..]) else Shortest(value[1..]);
        if 0 < i && i - 1 < |t| {
          assert ToLower(t)[i - 1] == t[i - 1];
        } else if i < |t| {
          assert ToLower(t)[i] == t[i];
        }
      }
    }
  }

  /** The pieces, one after the other. */
  function Concat(pieces: seq<string>): string {
    if pieces == [] then "" else pieces[0] + Concat(pieces[1..])
  }

  lemma ConcatStep(value: string)
    requires value != ""
    ensures Concat(Pieces(value)) ==
            if value[0] == '*' then Concat(Pieces(value[1..])) else [LowerChar(value[0])] + Concat(Pieces(value[1..]))
  {
    hide Pieces;
    PiecesStep(value);
    var r := Pieces(value[1..]);
    assert ([""] + r)[1..] == r;
    if |r| > 0 {
      assert ([[LowerChar(value[0])] + r[0]] + r[1..])[1..] == r[1..];
    }
    NotEmpty(value[1..]);
  }

  lemma NotEmpty(value: string)
    ensures Pieces(value) != []
  {
  }

  /** The shortest accepted text is no longer than the pieces, and differs from them unless the value is literal. */
  lemma {:induction false} ShortestDiffers(value: string)
    ensures |Shortest(value)| <= |Concat(Pieces(value))|
    ensures Shortest(value) == Concat(Pieces(value)) ==> IsLiteral(value)
  {
    hide Pieces, Concat;
    if value != "" {
      ConcatStep(value);
      if value[0] == '\\' {
        if |value| > 1 {
          ConcatStep(value[1..]);
          assert value[1..][1..] == value[2..];
          ShortestDiffers(value[2..]);
          if value[1] == '*' {
            assert Shortest(value)[0] == '%' && Concat(Pieces(value))[0] == '\\';
          } else {
            assert |Shortest(value)| < |Concat(Pieces(value))|;
          }
        } else {
          assert Shortest(value)[0] == '%' && Concat(Pieces(value))[0] == '\\';
        }
      } else {
        ShortestDiffers(value[1..]);
        assert value == [value[0]] + value[1..];
        if value[0] != '*' && value[0] != '%' && value[0] != '_' {
          assert Shortest(value)[1..] == Shortest(value[1..]);
          assert ([LowerChar(value[0])] + Concat(Pieces(value[1..])))[1..] == Concat(Pieces(value[1..]));
        }
      }
    }
  }

  /** Pieces that occur in order fill the text exactly if it is no longer than they are. */
  lemma {:induction false} OccurrenceIsLongEnough(pieces: seq<string>, s: string, from: nat)
    requires from <= |s| && OccurInOrder(pieces, s, from)
    ensures |Concat(pieces)| <= |s| - from
    ensures |Concat(pieces)| == |s| - from ==> s[from..] == Concat(pieces)
    decreases |pieces|
  {
    if pieces != [] {
      OccurStep(pieces, s, from);
      var i: nat :| from <= i && FirstAt(pieces, s, i);
      OccurrenceIsLongEnough(pieces[1..], s, i + |pieces[0]|);
      if |Concat(pieces)| == |s| - from {
        assert s[from..] == s[i..i + |pieces[0]|] + s[i + |pieces[0]|..];
      }
    }
  }

  ghost predicate MeansItsPieces(value: string) {
    forall column :: Like(ToLower(column), LikeValue(value)) <==> OccurInOrder(Pieces(value), ToLower(column), 0)
  }

  /** A filter value selects by its pieces if and only if it holds none of '%', '_' and backslash. */
  lemma MeansItsPiecesIff(value: string)
    ensures MeansItsPieces(value) <==> IsLiteral(value)
  {
    if IsLiteral(value) {
      forall column
        ensures Like(ToLower(column), LikeValue(value)) <==> OccurInOrder(Pieces(value), ToLower(column), 0)
      {
        FilterMeaning(column, value);
      }
    } else {
      SomeColumnDiffers(value);
    }
  }

  lemma SomeColumnDiffers(value: string)
    requires !IsLiteral(value)
    ensures Like(ToLower(Shortest(value)), LikeValue(value)) &&
            !OccurInOrder(Pieces(value), ToLower(Shortest(value)), 0)
  {
    hide Like, OccurInOrder, Shortest, Pieces, Concat;
    var s := Shortest(value);
    ShortestIsLower(value);
    ShortestIsLike(value);
    assert LikeValue(value) == "%" + (Body(value) + "%");
    LikePercent(s, Body(value) + "%");
    assert s[0..] == s;
    ShortestDiffers(value);
    if OccurInOrder(Pieces(value), s, 0) {
      OccurrenceIsLongEnough(Pieces(value), s, 0);
    }
  }

  // ---------- The predicates of a listing ----------

  /** A LIKE condition on the lower-cased column. */
  datatype LikePredicate = LikePredicate(column: string, pattern: string)

  /** The column of an attribute; an attribute without a column cannot be searched. */
  function FindColumn(name: string, columns: map<string, string>): Result<string> {
    if name !in columns || columns[name] == "" then Err(InvalidArgument) else Ok(columns[name])
  }

  predicate Searchable(fs: seq<Filter>, columns: map<string, string>) {
    forall i :: 0 <= i < |fs| ==> FindColumn(fs[i].name, columns).Ok?
  }

  /** The stored values of a row by column; a column that holds NULL is absent. */
  type Row = map<string, string>

  predicate Holds(p: LikePredicate, row: Row) {
    p.column in row && Like(ToLower(row[p.column]), p.pattern)
  }

  /** The disjunction of the predicates; without any, there is no condition. */
  predicate Selected(preds: seq<LikePredicate>, row: Row) {
    preds == [] || exists i :: 0 <= i < |preds| && Holds(preds[i], row)
  }

  /** The filter's attribute contains the pieces of the filter's value in order. */
  ghost predicate Shows(f: Filter, columns: map<string, string>, row: Row) {
    && FindColumn(f.name, columns).Ok?
    && var column := columns[f.name];
       column in row && OccurInOrder(Pieces(f.value), ToLower(row[column]), 0)
  }

  method FilterPredicates(fs: seq<Filter>, columns: map<string, string>) returns (r: Result<seq<LikePredicate>>)
    ensures r.Ok? <==> Searchable(fs, columns)
    ensures r.Ok? ==> |r.value| == |fs|
    ensures r.Ok? ==>
              forall i :: 0 <= i < |fs| ==> r.value[i] == LikePredicate(columns[fs[i].name], LikeValue(fs[i].value))
  {
    var preds: seq<LikePredicate> := [];
    for k := 0 to |fs|
      invariant |preds| == k && Searchable(fs[..k], columns)
      invariant forall i :: 0 <= i < k ==> FindColumn(fs[i].name, columns).Ok?
      invariant forall i :: 0 <= i < k ==> preds[i] == LikePredicate(columns[fs[i].name], LikeValue(fs[i].value))
    {
      var column :- FindColumn(fs[k].name, columns);
      preds := preds + [LikePredicate(column, LikeValue(fs[k].value))];
    }
    return Ok(preds);
  }

  /**
   * A row passes the predicates built for a parsed filter if and only if the filter is empty or
   * the row shows one of its alternatives.
   */
  lemma RowPassesIff(fs: seq<Filter>, columns: map<string, string>, preds: seq<LikePredicate>, row: Row)
    requires Searchable(fs, columns) && |preds| == |fs|
    requires forall i :: 0 <= i < |fs| ==>
               IsLiteral(fs[i].value) && preds[i] == LikePredicate(columns[fs[i].name], LikeValue(fs[i].value))
    ensures Selected(preds, row) <==> fs == [] || exists i :: 0 <= i < |fs| && Shows(fs[i], columns, row)
  {
    forall i | 0 <= i < |fs|
      ensures Holds(preds[i], row) <==> Shows(fs[i], columns, row)
    {
      var column := columns[fs[i].name];
      assert FindColumn(fs[i].name, columns).Ok?;
      if column in row {
        FilterMeaning(row[column], fs[i].value);
      }
    }
    if i :| 0 <= i < |fs| && Shows(fs[i], columns, row) {
      assert Holds(preds[i], row);
    }
    if fs != [] && Selected(preds, row) {
      var i :| 0 <= i < |preds| && Holds(preds[i], row);
      assert Shows(fs[i], columns, row);
    }
  }
}
