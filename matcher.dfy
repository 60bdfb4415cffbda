/** `extract_gps_coordinates`: the progressive matcher. The last token of the
    caller's list is the county anchor; the front token is tried as a
    townland name in that county, and is popped when no townland row
    matches, until only the county is left and the counties table answers.

    The two gazetteers are read-only sequences of rows passed in; a pandas
    row selection is an order- and multiplicity-preserving filter, given
    once as `Select`. */
module ProgressiveMatcher {
  import opened Outcomes

  /** One gazetteer row, with the four columns the result projects:
      `County`, `English_Name`, `Y`, `X`. Coordinates stay opaque strings. */
  datatype Place = Place(county: string, englishName: string, y: string, x: string)

  /** The two selections the matcher makes: townland rows by
      (`County`, `English_Name`) and county rows by `County`. */
  datatype Query =
    | ByTownland(county: string, name: string)
    | ByCounty(county: string)

  predicate Matches(p: Place, q: Query) {
    match q
    case ByTownland(county, name) => p.county == county && p.englishName == name
    case ByCounty(county) => p.county == county
  }

  // ---------------------------------------------------------------------------
  // Row selection: `df.loc[mask]`

  /** The rows of `table` that satisfy `q`, in table order, duplicates kept. */
  function Select(table: seq<Place>, q: Query): (rows: seq<Place>)
    ensures |rows| <= |table|
    ensures forall i :: 0 <= i < |rows| ==> Matches(rows[i], q)
  {
    if table == [] then []
    else if Matches(table[0], q) then [table[0]] + Select(table[1..], q)
    else Select(table[1..], q)
  }

  /** Selection distributes over concatenation, so relative order is kept. */
  lemma {:induction false} SelectAppend(a: seq<Place>, b: seq<Place>, q: Query)
    ensures Select(a + b, q) == Select(a, q) + Select(b, q)
    decreases |a|
  {
    if a == [] {
      assert a + b == b;
    } else {
      assert (a + b)[0] == a[0];
      assert (a + b)[1..] == a[1..] + b;
      SelectAppend(a[1..], b, q);
    }
  }

  /** Each matching row occurs as often as in the table; no other row occurs. */
  lemma {:induction false} SelectCount(table: seq<Place>, q: Query, p: Place)
    ensures multiset(Select(table, q))[p] == if Matches(p, q) then multiset(table)[p] else 0
    decreases |table|
  {
    if table != [] {
      var rest := table[1..];
      assert table == [table[0]] + rest;
      SelectCount(rest, q, p);
      CountCons(table[0], rest, p);
      if Matches(table[0], q) {
        assert Select(table, q) == [table[0]] + Select(rest, q);
        CountCons(table[0], Select(rest, q), p);
      } else {
        assert Select(table, q) == Select(rest, q);
      }
    }
  }

  /** Counting in a sequence with one more element in front. */
  lemma CountCons(x: Place, s: seq<Place>, p: Place)
    ensures multiset([x] + s)[p] == (if x == p then 1 else 0) + multiset(s)[p]
  {
    assert multiset([x] + s) == multiset([x]) + multiset(s);
  }

  /** The selection is empty exactly when no row of the table matches. */
  lemma {:induction false} SelectEmpty(table: seq<Place>, q: Query)
    ensures Select(table, q) == [] <==> forall i :: 0 <= i < |table| ==> !Matches(table[i], q)
    decreases |table|
  {
    if table != [] {
      SelectEmpty(table[1..], q);
      assert forall i :: 1 <= i < |table| ==> table[i] == table[1..][i - 1];
    }
  }

  // ---------------------------------------------------------------------------
  // What the loop computes

  /** The rows iteration `k` selects: townland rows named `tokens[k]` in the
      county `tokens[n-1]`, or, at the final token, the county rows. */
  function Lookup(tokens: seq<string>, townlands: seq<Place>, counties: seq<Place>, k: nat): (rows: seq<Place>)
    requires k < |tokens|
    ensures forall i :: 0 <= i < |rows| ==> rows[i].county == tokens[|tokens| - 1]
    ensures k < |tokens| - 1 ==> forall i :: 0 <= i < |rows| ==> rows[i].englishName == tokens[k]
  {
    var county := tokens[|tokens| - 1];
    if k < |tokens| - 1 then Select(townlands, ByTownland(county, tokens[k]))
    else Select(counties, ByCounty(county))
  }

  /** Some townland candidate before the anchor has a row in the county. */
  predicate TownlandHit(tokens: seq<string>, townlands: seq<Place>, k: nat)
    requires |tokens| >= 1
  {
    k < |tokens| - 1 && Select(townlands, ByTownland(tokens[|tokens| - 1], tokens[k])) != []
  }

  /** The first index from `i` on that is a townland hit, or the anchor's
      index `n-1` when there is none. */
  function FirstHitFrom(tokens: seq<string>, townlands: seq<Place>, i: nat): (k: nat)
    requires i < |tokens|
    ensures i <= k < |tokens|
    ensures forall j :: i <= j < k ==> !TownlandHit(tokens, townlands, j)
    ensures k < |tokens| - 1 ==> TownlandHit(tokens, townlands, k)
    decreases |tokens| - i
  {
    if i == |tokens| - 1 || TownlandHit(tokens, townlands, i) then i
    else FirstHitFrom(tokens, townlands, i + 1)
  }

  /** The iteration at which the loop stops. */
  function FirstHit(tokens: seq<string>, townlands: seq<Place>): (k: nat)
    requires |tokens| >= 1
    ensures k < |tokens|
  {
    FirstHitFrom(tokens, townlands, 0)
  }

  /** The value `extract_gps_coordinates` returns on `tokens`: a `KeyError`
      when the list is empty (the column projection of a column-less
      DataFrame), else the rows of the iteration that stops the loop. */
  function Resolution(tokens: seq<string>, townlands: seq<Place>, counties: seq<Place>): (r: Result<seq<Place>>)
    ensures r.Err? <==> |tokens| == 0
    ensures r.Err? ==> r.error == KeyError
  {
    if |tokens| == 0 then Err(KeyError)
    else Ok(Lookup(tokens, townlands, counties, FirstHit(tokens, townlands)))
  }

  /** What is left of the caller's list afterwards. */
  function Remaining(tokens: seq<string>, townlands: seq<Place>): (rest: seq<string>)
    ensures |rest| <= |tokens| && rest == tokens[|tokens| - |rest|..]
    ensures |tokens| >= 1 ==> |rest| < |tokens|
  {
    if |tokens| == 0 then [] else tokens[FirstHit(tokens, townlands) + 1..]
  }

  // ---------------------------------------------------------------------------
  // The matcher

  /** The caller's `address_list`, which the matcher consumes from the front. */
  class AddressList {
    var items: seq<string>

    constructor (tokens: seq<string>)
      ensures items == tokens
    {
      items := tokens;
    }
  }

  /** `extract_gps_coordinates(address_list)`. `matched` plays `_matched_df`;
      `hasColumns` records whether it is still the column-less
      `pandas.DataFrame()` the function starts from. */
  method ExtractGpsCoordinates(addressList: AddressList, townlands: seq<Place>, counties: seq<Place>)
    returns (r: Result<seq<Place>>)
    modifies addressList
    ensures r == Resolution(old(addressList.items), townlands, counties)
    ensures addressList.items == Remaining(old(addressList.items), townlands)
  {
    ghost var tokens := addressList.items;
    ghost var tried: nat := 0;
    var matched: seq<Place> := [];
    var hasColumns := false;
    while |matched| == 0 && |addressList.items| >= 1
      invariant tried <= |tokens| && addressList.items == tokens[tried..]
      invariant hasColumns <==> tried >= 1
      invariant tried == 0 ==> matched == []
      invariant tried >= 1 ==> tried - 1 <= FirstHit(tokens, townlands)
      invariant tried >= 1 ==> matched == Lookup(tokens, townlands, counties, tried - 1)
      decreases |addressList.items|
    {
      var items := addressList.items;
      assert items[|items| - 1] == tokens[|tokens| - 1] && items[0] == tokens[tried];
      if tried >= 1 {
        StopIndex(tokens, townlands, counties, tried - 1);
      }
      matched := Select(townlands, ByTownland(items[|items| - 1], items[0]));
      if |items| == 1 {
        matched := Select(counties, ByCounty(items[0]));
      }
      hasColumns := true;
      addressList.items := items[1..];
      tried := tried + 1;
    }
    if !hasColumns {
      r := Err(KeyError);
    } else {
      StopIndex(tokens, townlands, counties, tried - 1);
      r := Ok(matched);
    }
  }

  /** Up to the stopping iteration, an iteration selects nothing exactly
      when it is not the stopping one or is the final county lookup. */
  lemma StopIndex(tokens: seq<string>, townlands: seq<Place>, counties: seq<Place>, j: nat)
    requires |tokens| >= 1 && j <= FirstHit(tokens, townlands)
    ensures j < FirstHit(tokens, townlands) ==> Lookup(tokens, townlands, counties, j) == []
    ensures j < |tokens| - 1 && Lookup(tokens, townlands, counties, j) == [] ==> j < FirstHit(tokens, townlands)
  {
    if j < FirstHit(tokens, townlands) {
      assert !TownlandHit(tokens, townlands, j);
    } else {
      assert j < |tokens| - 1 ==> TownlandHit(tokens, townlands, j);
    }
  }

  // ---------------------------------------------------------------------------
  // Properties of the search

  /** Townland match: the result is the townland rows of the smallest
      candidate index with a match, and the list keeps what follows it. */
  lemma TownlandMatch(tokens: seq<string>, townlands: seq<Place>, counties: seq<Place>, k: nat)
    requires k < |tokens| - 1
    requires Select(townlands, ByTownland(tokens[|tokens| - 1], tokens[k])) != []
    requires forall j :: 0 <= j < k ==> Select(townlands, ByTownland(tokens[|tokens| - 1], tokens[j])) == []
    ensures Resolution(tokens, townlands, counties) == Ok(Select(townlands, ByTownland(tokens[|tokens| - 1], tokens[k])))
    ensures Remaining(tokens, townlands) == tokens[k + 1..]
  {
    assert TownlandHit(tokens, townlands, k);
    assert forall j :: 0 <= j < k ==> !TownlandHit(tokens, townlands, j);
  }

  /** County fallback: with no townland candidate matching, the result is
      the county rows of the anchor, possibly none, and the list is used up. */
  lemma CountyFallback(tokens: seq<string>, townlands: seq<Place>, counties: seq<Place>)
    requires |tokens| >= 1
    requires forall j :: 0 <= j < |tokens| - 1 ==> Select(townlands, ByTownland(tokens[|tokens| - 1], tokens[j])) == []
    ensures Resolution(tokens, townlands, counties) == Ok(Select(counties, ByCounty(tokens[|tokens| - 1])))
    ensures Remaining(tokens, townlands) == []
  {
    assert forall j :: 0 <= j < |tokens| - 1 ==> !TownlandHit(tokens, townlands, j);
  }

  /** A single token is looked up as a county only: whatever the townland
      table holds for it is discarded. */
  lemma SingleToken(token: string, townlands: seq<Place>, counties: seq<Place>)
    ensures Resolution([token], townlands, counties) == Ok(Select(counties, ByCounty(token)))
    ensures Remaining([token], townlands) == []
  {
  }

  /** The result is a townland result exactly when some candidate matches,
      and then every row of it lies in the anchor's county. */
  lemma TownlandLevelIff(tokens: seq<string>, townlands: seq<Place>, counties: seq<Place>)
    requires |tokens| >= 1
    ensures FirstHit(tokens, townlands) < |tokens| - 1 <==> exists k :: 0 <= k < |tokens| - 1 && TownlandHit(tokens, townlands, k)
    ensures Resolution(tokens, townlands, counties).Ok?
    ensures forall i :: 0 <= i < |Resolution(tokens, townlands, counties).value| ==>
      Resolution(tokens, townlands, counties).value[i].county == tokens[|tokens| - 1]
  {
    var h := FirstHit(tokens, townlands);
    if exists k :: 0 <= k < |tokens| - 1 && TownlandHit(tokens, townlands, k) {
      var k :| 0 <= k < |tokens| - 1 && TownlandHit(tokens, townlands, k);
      assert h <= k;
    }
  }

  /** What the loop leaves: a proper suffix of the caller's list, with the
      county anchor still last while anything is left. */
  lemma ConsumedFromFront(tokens: seq<string>, townlands: seq<Place>)
    requires |tokens| >= 1
    ensures |Remaining(tokens, townlands)| < |tokens|
    ensures Remaining(tokens, townlands) == tokens[|tokens| - |Remaining(tokens, townlands)|..]
    ensures |Remaining(tokens, townlands)| >= 1 ==> Remaining(tokens, townlands)[|Remaining(tokens, townlands)| - 1] == tokens[|tokens| - 1]
  {
  }

  /** An empty result uses up the whole list. */
  lemma EmptyResultConsumesAll(tokens: seq<string>, townlands: seq<Place>, counties: seq<Place>)
    requires Resolution(tokens, townlands, counties) == Ok([])
    ensures Remaining(tokens, townlands) == []
  {
    var h := FirstHit(tokens, townlands);
    assert h < |tokens| - 1 ==> TownlandHit(tokens, townlands, h);
  }

  /** The list a townland match leaves is non-empty and starts right after
      the matched name. */
  lemma TownlandMatchLeavesRest(tokens: seq<string>, townlands: seq<Place>)
    requires |tokens| >= 1 && FirstHit(tokens, townlands) < |tokens| - 1
    ensures |Remaining(tokens, townlands)| >= 1
    ensures |tokens| - |Remaining(tokens, townlands)| - 1 == FirstHit(tokens, townlands)
  {
  }

  // ---------------------------------------------------------------------------
  // The doc-comment example

  /** On the tokens of "Johnstown, Bennekerry, Co Carlow" the anchor is
      `CARLOW` and the candidates are tried front first: `JOHNSTOWN`, then
      `BENNEKERRY`, then `CO`, and only then the county table. */
  lemma CarlowSearchOrder(townlands: seq<Place>, counties: seq<Place>)
    ensures var tokens := ["JOHNSTOWN", "BENNEKERRY", "CO", "CARLOW"];
      && (Select(townlands, ByTownland("CARLOW", "JOHNSTOWN")) != [] ==>
            Resolution(tokens, townlands, counties) == Ok(Select(townlands, ByTownland("CARLOW", "JOHNSTOWN")))
            && Remaining(tokens, townlands) == ["BENNEKERRY", "CO", "CARLOW"])
      && (Select(townlands, ByTownland("CARLOW", "JOHNSTOWN")) == [] &&
          Select(townlands, ByTownland("CARLOW", "BENNEKERRY")) != [] ==>
            Resolution(tokens, townlands, counties) == Ok(Select(townlands, ByTownland("CARLOW", "BENNEKERRY")))
            && Remaining(tokens, townlands) == ["CO", "CARLOW"])
      && (Select(townlands, ByTownland("CARLOW", "JOHNSTOWN")) == [] &&
          Select(townlands, ByTownland("CARLOW", "BENNEKERRY")) == [] &&
          Select(townlands, ByTownland("CARLOW", "CO")) != [] ==>
            Resolution(tokens, townlands, counties) == Ok(Select(townlands, ByTownland("CARLOW", "CO")))
            && Remaining(tokens, townlands) == ["CARLOW"])
      && (Select(townlands, ByTownland("CARLOW", "JOHNSTOWN")) == [] &&
          Select(townlands, ByTownland("CARLOW", "BENNEKERRY")) == [] &&
          Select(townlands, ByTownland("CARLOW", "CO")) == [] ==>
            Resolution(tokens, townlands, counties) == Ok(Select(counties, ByCounty("CARLOW")))
            && Remaining(tokens, townlands) == [])
  {
    var tokens := ["JOHNSTOWN", "BENNEKERRY", "CO", "CARLOW"];
    assert tokens[1..] == ["BENNEKERRY", "CO", "CARLOW"];
    assert tokens[2..] == ["CO", "CARLOW"];
    assert tokens[3..] == ["CARLOW"];
  }
}
