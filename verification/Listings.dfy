/** Which deployment packages a listing selects: the attributes, the filters and the kinds. */
module Listings {
  import opened Prelude
  import opened Text
  import opened Tables
  import F = Filter
  import S = Search
  import Ordering

  /** The columns of the attributes of a package; an attribute without a column cannot be used. */
  const PACKAGE_COLUMNS := map[
    "publisherName" := "", "name" := "name", "displayName" := "display_name", "description" := "description",
    "version" := "version", "createTime" := "create_time", "updateTime" := "update_time"]

  /** The text columns of a stored package. */
  function ColumnsOf(key: VersionedKey, row: PackageRow): S.Row {
    map["name" := key.name, "display_name" := row.displayName, "description" := row.description,
        "version" := key.version]
  }

  predicate KindSelected(kinds: seq<Kind>, kind: string) {
    kinds == [] || exists i :: 0 <= i < |kinds| && KindToDb(kinds[i]) == kind
  }

  /** The packages of the project that pass the predicates and have one of the kinds. */
  function SelectedPackages(
    packages: map<VersionedKey, PackageRow>, project: string, preds: seq<S.LikePredicate>, kinds: seq<Kind>)
    : set<VersionedKey>
  {
    set k | k in packages && k.project == project && S.Selected(preds, ColumnsOf(k, packages[k])) &&
            KindSelected(kinds, packages[k].kind)
  }

  /** Every attribute of the ordering has a column. */
  predicate Sortable(os: seq<Ordering.OrderBy>) {
    forall i :: 0 <= i < |os| ==> S.FindColumn(os[i].name, PACKAGE_COLUMNS).Ok?
  }

  method OrderByOptions(os: seq<Ordering.OrderBy>) returns (r: Result<seq<(string, bool)>>)
    ensures r.Ok? <==> Sortable(os)
    ensures r.Ok? ==> |r.value| == |os|
    ensures r.Ok? ==> forall i :: 0 <= i < |os| ==> r.value[i] == (PACKAGE_COLUMNS[os[i].name], os[i].isDescending)
    ensures r.Err? ==> r.error == InvalidArgument
  {
    var options: seq<(string, bool)> := [];
    for k := 0 to |os|
      invariant |options| == k
      invariant forall i :: 0 <= i < k ==> S.FindColumn(os[i].name, PACKAGE_COLUMNS).Ok?
      invariant forall i :: 0 <= i < k ==> options[i] == (PACKAGE_COLUMNS[os[i].name], os[i].isDescending)
    {
      var column :- S.FindColumn(os[k].name, PACKAGE_COLUMNS);
      options := options + [(column, os[k].isDescending)];
    }
    return Ok(options);
  }

  /** The parameters of a listing can be read: they parse, and name attributes that have columns. */
  predicate Readable(orderBy: string, filter: string) {
    && Ordering.Parse(orderBy).Ok? && Sortable(Ordering.Parse(orderBy).value)
    && F.Parse(filter).Ok? && S.Searchable(F.Parse(filter).value, PACKAGE_COLUMNS)
  }

  /** The predicates of a readable filter. */
  function PredicatesOf(filter: string): seq<S.LikePredicate>
    requires F.Parse(filter).Ok? && S.Searchable(F.Parse(filter).value, PACKAGE_COLUMNS)
  {
    var fs := F.Parse(filter).value;
    seq(|fs|, i requires 0 <= i < |fs| =>
      assert S.FindColumn(fs[i].name, PACKAGE_COLUMNS).Ok?;
      S.LikePredicate(PACKAGE_COLUMNS[fs[i].name], S.LikeValue(fs[i].value)))
  }

  /** Reads the parameters of a listing. */
  method ReadParameters(orderBy: string, filter: string) returns (r: Result<seq<S.LikePredicate>>)
    ensures r.Ok? <==> Readable(orderBy, filter)
    ensures r.Ok? ==> r.value == PredicatesOf(filter)
    ensures r.Err? ==> r.error == InvalidArgument
  {
    var orderBys := Ordering.ParseOrderBy(orderBy);
    if orderBys.Err? {
      return Err(InvalidArgument);
    }
    var filters := F.ParseFilter(filter);
    if filters.Err? {
      return Err(InvalidArgument);
    }
    var options := OrderByOptions(orderBys.value);
    if options.Err? {
      return Err(InvalidArgument);
    }
    var preds := S.FilterPredicates(filters.value, PACKAGE_COLUMNS);
    if preds.Err? {
      return Err(InvalidArgument);
    }
    assert preds.value == PredicatesOf(filter);
    return preds;
  }

  /** No parameters select everything. */
  lemma NoParameters(packages: map<VersionedKey, PackageRow>, project: string)
    ensures Readable("", "") && PredicatesOf("") == []
    ensures SelectedPackages(packages, project, [], []) == set k | k in packages && k.project == project
  {
  }

  /**
   * What a listing shows: a package of the project with one of the kinds that shows one of the
   * alternatives of the filter, for filter values without pattern characters.
   */
  lemma ListedIff(
    packages: map<VersionedKey, PackageRow>, project: string, filter: string, kinds: seq<Kind>, k: VersionedKey)
    requires F.Parse(filter).Ok? && S.Searchable(F.Parse(filter).value, PACKAGE_COLUMNS)
    requires forall i :: 0 <= i < |F.Parse(filter).value| ==> S.IsLiteral(F.Parse(filter).value[i].value)
    ensures k in SelectedPackages(packages, project, PredicatesOf(filter), kinds) <==>
            k in packages && k.project == project && KindSelected(kinds, packages[k].kind) &&
            var fs := F.Parse(filter).value;
            fs == [] || exists i :: 0 <= i < |fs| && S.Shows(fs[i], PACKAGE_COLUMNS, ColumnsOf(k, packages[k]))
  {
    hide F.Parse, S.IsLiteral;
    if k in packages {
      S.RowPassesIff(F.Parse(filter).value, PACKAGE_COLUMNS, PredicatesOf(filter), ColumnsOf(k, packages[k]));
    }
  }

  // ---------- By the fields of the row ----------

  /** What a package shows under an attribute that can be searched for text. */
  function FieldOf(attribute: string, key: VersionedKey, row: PackageRow): Option<string> {
    if attribute == "name" then Some(key.name)
    else if attribute == "displayName" then Some(row.displayName)
    else if attribute == "description" then Some(row.description)
    else if attribute == "version" then Some(key.version)
    else None
  }

  /** The attributes that an ordering or a filter may name. */
  predicate IsAttribute(name: string) {
    name == "name" || name == "displayName" || name == "description" || name == "version" || name == "createTime" ||
    name == "updateTime"
  }

  lemma AttributeIff(name: string)
    ensures S.FindColumn(name, PACKAGE_COLUMNS).Ok? <==> IsAttribute(name)
  {
  }

  /** A listing is refused exactly if a parameter does not parse or names something else than an attribute. */
  lemma ReadableIff(orderBy: string, filter: string)
    ensures Readable(orderBy, filter) <==>
            && Ordering.Parse(orderBy).Ok? && F.Parse(filter).Ok?
            && (forall i :: 0 <= i < |Ordering.Parse(orderBy).value| ==>
                  IsAttribute(Ordering.Parse(orderBy).value[i].name))
            && (forall i :: 0 <= i < |F.Parse(filter).value| ==> IsAttribute(F.Parse(filter).value[i].name))
  {
    hide Ordering.Parse, F.Parse, S.FindColumn, IsAttribute;
    forall name
      ensures S.FindColumn(name, PACKAGE_COLUMNS).Ok? <==> IsAttribute(name)
    {
      AttributeIff(name);
    }
  }

  /** The kind of a package is one of those asked for, if any are; without a kind, normal is asked for. */
  predicate KindAskedFor(kinds: seq<Kind>, kind: string) {
    || kinds == []
    || (Addon in kinds && kind == "addon") || (Kind.Extension in kinds && kind == "extension")
    || ((Normal in kinds || Unspecified in kinds) && kind == "normal")
  }

  lemma KindSelectedIff(kinds: seq<Kind>, kind: string)
    ensures KindSelected(kinds, kind) <==> KindAskedFor(kinds, kind)
  {
    if kinds != [] && KindAskedFor(kinds, kind) {
      var k := if kind == "addon" then Addon else if kind == "extension" then Kind.Extension
               else if Normal in kinds then Normal else Unspecified;
      var i :| 0 <= i < |kinds| && kinds[i] == k;
      assert KindToDb(kinds[i]) == kind;
    }
  }

  /** The pieces of the filter's value occur in order in the field that it names, ignoring case. */
  ghost predicate FieldShows(f: F.Filter, key: VersionedKey, row: PackageRow) {
    var field := FieldOf(f.name, key, row);
    field.Some? && S.OccurInOrder(S.Pieces(f.value), ToLower(field.value), 0)
  }

  lemma ShownIff(f: F.Filter, key: VersionedKey, row: PackageRow)
    requires FieldOf(f.name, key, row).Some?
    ensures S.Shows(f, PACKAGE_COLUMNS, ColumnsOf(key, row)) <==> FieldShows(f, key, row)
  {
    hide S.OccurInOrder, S.Pieces;
  }

  /**
   * What a listing shows for filters on name, display name, description and version, by the fields of
   * the row: the pieces of the value occur in order in the field that the attribute names.
   */
  lemma ListedByFieldsIff(
    packages: map<VersionedKey, PackageRow>, project: string, filter: string, kinds: seq<Kind>, k: VersionedKey)
    requires F.Parse(filter).Ok? && k in packages
    requires forall i :: 0 <= i < |F.Parse(filter).value| ==>
               S.IsLiteral(F.Parse(filter).value[i].value) &&
               FieldOf(F.Parse(filter).value[i].name, k, packages[k]).Some?
    ensures S.Searchable(F.Parse(filter).value, PACKAGE_COLUMNS)
    ensures k in SelectedPackages(packages, project, PredicatesOf(filter), kinds) <==>
            k.project == project && KindAskedFor(kinds, packages[k].kind) &&
            var fs := F.Parse(filter).value;
            fs == [] || exists i :: 0 <= i < |fs| && FieldShows(fs[i], k, packages[k])
  {
    hide F.Parse, S.IsLiteral, S.OccurInOrder, S.Pieces, KindAskedFor, KindSelected, SelectedPackages, PredicatesOf;
    var fs := F.Parse(filter).value;
    forall i | 0 <= i < |fs|
      ensures S.FindColumn(fs[i].name, PACKAGE_COLUMNS).Ok?
      ensures S.Shows(fs[i], PACKAGE_COLUMNS, ColumnsOf(k, packages[k])) <==> FieldShows(fs[i], k, packages[k])
    {
      AttributeIff(fs[i].name);
      ShownIff(fs[i], k, packages[k]);
    }
    ListedIff(packages, project, filter, kinds, k);
    KindSelectedIff(kinds, packages[k].kind);
  }
}
