/**
  SearchResults.Search: shows the result rows whose name starts with the query and counts them.
  Rows are objects whose display style is written in place.
 */
module ResultFilter {
  import opened IdEncoding

  const SPACE: Unit := 32

  function StripLeading(s: Text): Text {
    if s != [] && s[0] == SPACE then StripLeading(s[1..]) else s
  }

  function StripTrailing(s: Text): Text {
    if s != [] && s[|s| - 1] == SPACE then StripTrailing(s[..|s| - 1]) else s
  }

  /** Lower-casing of the units below 256. */
  function LowerUnit(c: Unit): Unit {
    if 65 <= c <= 90 || (0xC0 <= c <= 0xDE && c != 0xD7) then c + 32 else c
  }

  function Lower(s: Text): (l: Text)
    ensures |l| == |s| && forall i :: 0 <= i < |s| ==> l[i] == LowerUnit(s[i])
  {
    seq(|s|, i requires 0 <= i < |s| => LowerUnit(s[i]))
  }

  function Normalised(search: Text): Text {
    Lower(StripTrailing(StripLeading(search)))
  }

  function SkipDigits(s: Text): Text {
    if s != [] && 48 <= s[0] <= 57 then SkipDigits(s[1..]) else s
  }

  const SR: Text := [115, 114]

  /** Replaces a match of /^sr\d*_/ by nothing. */
  function StripRowNumber(s: Text): Text {
    if |s| >= 2 && s[..2] == SR then
      var rest := SkipDigits(s[2..]);
      if rest != [] && rest[0] == UNDERSCORE then rest[1..] else s
    else s
  }

  function MatchName(id: Text): Text {
    StripRowNumber(Lower(id))
  }

  /** The filter condition: the encoded query is a prefix of the row's name. */
  predicate Matches(id: Text, key: Text) {
    key <= MatchName(id)
  }

  class Row {
    const className: string
    const id: Text
    var display: string
  }

  /** A result row is shown or hidden; the display of any other row is left alone. */
  function Display(row: Row, key: Text, before: string): string {
    if row.className != "SRResult" then before else if Matches(row.id, key) then "block" else "none"
  }

  function CountMatches(rows: seq<Row>, key: Text): nat {
    if rows == [] then 0
    else
      var row := rows[|rows| - 1];
      CountMatches(rows[..|rows| - 1], key) + if row.className == "SRResult" && Matches(row.id, key) then 1 else 0
  }

  lemma CountOneMore(rows: seq<Row>, i: nat, key: Text)
    requires i < |rows|
    ensures CountMatches(rows[..i + 1], key) ==
            CountMatches(rows[..i], key) + if rows[i].className == "SRResult" && Matches(rows[i].id, key) then 1 else 0
  {
    assert rows[..i + 1][..i] == rows[..i];
  }

  predicate IsMatch(row: Row, key: Text) {
    row.className == "SRResult" && key <= MatchName(row.id)
  }

  /** The positions of the result rows that match. */
  function MatchingRows(rows: seq<Row>, key: Text): set<nat> {
    set i: nat | i < |rows| && IsMatch(rows[i], key)
  }

  lemma OneMoreRow(rows: seq<Row>, row: Row, key: Text)
    ensures |MatchingRows(rows + [row], key)| == |MatchingRows(rows, key)| + if IsMatch(row, key) then 1 else 0
  {
    var before, after := MatchingRows(rows, key), MatchingRows(rows + [row], key);
    if IsMatch(row, key) {
      assert after == before + {|rows|};
    } else {
      assert after == before;
    }
  }

  lemma {:induction false} CountIsSize(rows: seq<Row>, key: Text)
    ensures CountMatches(rows, key) == |MatchingRows(rows, key)|
  {
    if rows != [] {
      var before, row := rows[..|rows| - 1], rows[|rows| - 1];
      CountIsSize(before, key);
      OneMoreRow(before, row, key);
      assert rows == before + [row];
    }
  }

  /** Shows or hides one row. */
  method ShowRow(row: Row, key: Text) returns (shown: bool)
    modifies row
    ensures row.display == Display(row, key, old(row.display))
    ensures shown == (row.className == "SRResult" && Matches(row.id, key))
  {
    shown := false;
    if row.className == "SRResult" {
      var rowMatchName := MatchName(row.id);
      if |key| <= |rowMatchName| && rowMatchName[..|key|] == key {
        row.display := "block";
        shown := true;
      } else {
        row.display := "none";
      }
    }
  }

  class SearchResults {
    var lastMatchCount: nat
    var noMatchesDisplay: string
    var searchingDisplay: string

    method Search(search: Text, resultRows: seq<Row>)
      requires forall i, j :: 0 <= i < j < |resultRows| ==> resultRows[i] != resultRows[j]
      modifies this, resultRows
      ensures forall i :: 0 <= i < |resultRows| ==>
        resultRows[i].display ==
          if resultRows[i].className != "SRResult" then old(resultRows[i].display)
          else if Encode(Normalised(search)) <= MatchName(resultRows[i].id) then "block"
          else "none"
      ensures lastMatchCount == |MatchingRows(resultRows, Encode(Normalised(search)))|
      ensures searchingDisplay == "none"
      ensures noMatchesDisplay == if lastMatchCount == 0 then "block" else "none"
    {
      var key := ConvertToId(Normalised(search));
      var matches: nat := 0;
      var i := 0;
      while i < |resultRows|
        invariant 0 <= i <= |resultRows|
        invariant matches == CountMatches(resultRows[..i], key)
        invariant forall j :: 0 <= j < i ==>
          resultRows[j].display == Display(resultRows[j], key, old(resultRows[j].display))
        invariant forall j :: i <= j < |resultRows| ==> resultRows[j].display == old(resultRows[j].display)
      {
        CountOneMore(resultRows, i, key);
        var shown := ShowRow(resultRows[i], key);
        if shown {
          matches := matches + 1;
        }
        i := i + 1;
      }
      assert resultRows[..i] == resultRows;
      searchingDisplay := "none";
      if matches == 0 {
        noMatchesDisplay := "block";
      } else {
        noMatchesDisplay := "none";
      }
      lastMatchCount := matches;
      CountIsSize(resultRows, key);
    }
  }

  // ---------- what the query becomes ----------

  predicate Spaces(s: Text) {
    forall i :: 0 <= i < |s| ==> s[i] == 32
  }

  /** Neither starts nor ends with a space. */
  predicate IsTrimmed(s: Text) {
    s != [] ==> s[0] != 32 && s[|s| - 1] != 32
  }

  lemma {:induction false} StripsLeading(a: Text, rest: Text)
    requires Spaces(a) && (rest != [] ==> rest[0] != 32)
    ensures StripLeading(a + rest) == rest
  {
    if a == [] {
      assert a + rest == rest;
    } else {
      assert (a + rest)[1..] == a[1..] + rest;
      StripsLeading(a[1..], rest);
    }
  }

  lemma {:induction false} StripsTrailing(rest: Text, b: Text)
    requires Spaces(b) && (rest != [] ==> rest[|rest| - 1] != 32)
    ensures StripTrailing(rest + b) == rest
  {
    if b == [] {
      assert rest + b == rest;
    } else {
      assert (rest + b)[..|rest + b| - 1] == rest + b[..|b| - 1];
      StripsTrailing(rest, b[..|b| - 1]);
    }
  }

  /** Every query is a trimmed text between spaces. */
  lemma Trimmed(search: Text) returns (a: Text, core: Text, b: Text)
    ensures search == a + core + b && Spaces(a) && Spaces(b) && IsTrimmed(core)
  {
    var i, j := 0, |search|;
    while i < |search| && search[i] == 32
      invariant i <= |search| && Spaces(search[..i])
    {
      assert search[..i + 1] == search[..i] + [search[i]];
      i := i + 1;
    }
    while j > i && search[j - 1] == 32
      invariant i <= j <= |search| && Spaces(search[j..])
    {
      assert search[j - 1..] == [search[j - 1]] + search[j..];
      j := j - 1;
    }
    a, core, b := search[..i], search[i..j], search[j..];
  }

  /**
    The spaces around the query go, and the capital letters of ASCII and Latin-1 become small ones;
    all other units below 256 stay. (A query of spaces only becomes empty.)
   */
  lemma NormalisedExactly(a: Text, core: Text, b: Text)
    requires Spaces(a) && Spaces(b) && IsTrimmed(core)
    ensures
      var n := Normalised(a + core + b);
      && |n| == |core|
      && forall i :: 0 <= i < |core| && core[i] < 256 ==>
           n[i] == if 65 <= core[i] <= 90 || (192 <= core[i] <= 222 && core[i] != 215) then core[i] + 32 else core[i]
  {
    if core == [] {
      assert a + core + b == (a + b) + [];
      StripsLeading(a + b, []);
    } else {
      assert a + core + b == a + (core + b);
      StripsLeading(a, core + b);
      StripsTrailing(core, b);
    }
  }

  // ---------- what the filter shows ----------

  /** Only lower-case letters, digits and underscores occur in an id. */
  lemma {:induction false} EncodedUnits(s: Text)
    ensures forall i :: 0 <= i < |Encode(s)| ==> IsPlain(Encode(s)[i]) || Encode(s)[i] == UNDERSCORE
  {
    if s != [] {
      EncodedUnits(s[1..]);
      HexUnits(s[0]);
    }
  }

  lemma {:induction false} HexUnits(n: nat)
    ensures forall i :: 0 <= i < |Hex(n)| ==> IsPlain(Hex(n)[i])
  {
    if n >= 16 {
      HexUnits(n / 16);
    }
  }

  predicate AllDigits(s: Text) {
    forall i :: 0 <= i < |s| ==> 48 <= s[i] <= 57
  }

  lemma {:induction false} SkipsExactly(digits: Text, rest: Text)
    requires AllDigits(digits) && rest != [] && !(48 <= rest[0] <= 57)
    ensures SkipDigits(digits + rest) == rest
  {
    if digits == [] {
      assert digits + rest == rest;
    } else {
      assert (digits + rest)[1..] == digits[1..] + rest;
      SkipsExactly(digits[1..], rest);
    }
  }

  /** The id that the page generator gives to the row of a name. */
  function RowId(digits: Text, name: Text): Text {
    [83, 82] + (digits + ([UNDERSCORE] + Encode(name)))
  }

  lemma RowIdGivesName(digits: Text, name: Text)
    requires AllDigits(digits)
    ensures MatchName(RowId(digits, name)) == Encode(name)
  {
    var rest := [UNDERSCORE] + Encode(name);
    LowerRowId(digits, name);
    assert (SR + (digits + rest))[2..] == digits + rest;
    SkipsExactly(digits, rest);
  }

  /** "sr", digits and an underscore in front of a rest, in either case of the letters. */
  predicate HasRowNumber(id: Text, digits: Text, rest: Text) {
    AllDigits(digits) && Lower(id) == [115, 114] + digits + [95] + rest
  }

  /** An id with a row number loses it, and every other id is only lower-cased. */
  lemma MatchNameExactly(id: Text)
    ensures forall digits, rest :: HasRowNumber(id, digits, rest) ==> MatchName(id) == rest
    ensures (forall digits, rest :: !HasRowNumber(id, digits, rest)) ==> MatchName(id) == Lower(id)
  {
    var s := Lower(id);
    forall digits, rest | HasRowNumber(id, digits, rest) ensures MatchName(id) == rest {
      assert s[2..] == digits + ([95] + rest);
      SkipsExactly(digits, [95] + rest);
    }
    if StripRowNumber(s) != s {
      var digits := DigitsSkipped(s[2..]);
      assert s == [115, 114] + digits + [95] + SkipDigits(s[2..])[1..];
      assert HasRowNumber(id, digits, SkipDigits(s[2..])[1..]);
    }
  }

  lemma {:induction false} DigitsSkipped(s: Text) returns (digits: Text)
    ensures AllDigits(digits) && s == digits + SkipDigits(s)
  {
    digits := [];
    if s != [] && 48 <= s[0] <= 57 {
      var more := DigitsSkipped(s[1..]);
      digits := [s[0]] + more;
    }
  }

  lemma LowerRowId(digits: Text, name: Text)
    requires AllDigits(digits)
    ensures Lower(RowId(digits, name)) == SR + (digits + ([UNDERSCORE] + Encode(name)))
  {
    EncodedUnits(name);
    LowerKeeps(Encode(name));
    LowerKeeps(digits);
    LowerConcat([UNDERSCORE], Encode(name));
    LowerConcat(digits, [UNDERSCORE] + Encode(name));
    LowerConcat([83, 82], digits + ([UNDERSCORE] + Encode(name)));
    assert Lower([83, 82]) == SR && Lower([UNDERSCORE]) == [UNDERSCORE];
  }

  lemma LowerConcat(a: Text, b: Text)
    ensures Lower(a + b) == Lower(a) + Lower(b)
  {
  }

  lemma LowerKeeps(s: Text)
    requires forall i :: 0 <= i < |s| ==> IsPlain(s[i]) || s[i] == UNDERSCORE
    ensures Lower(s) == s
  {
  }

  /** Every generated row whose name starts with the normalised query is shown, for all units. */
  lemma ShownIfPrefix(digits: Text, name: Text, search: Text)
    requires AllDigits(digits) && Normalised(search) <= name
    ensures Matches(RowId(digits, name), Encode(Normalised(search)))
  {
    RowIdGivesName(digits, name);
    PrefixAlways(Normalised(search), name);
  }

  /** For names and queries of units below 256 no other row is shown. */
  lemma ShownExactly(digits: Text, name: Text, search: Text)
    requires AllDigits(digits) && IsNarrow(name) && IsNarrow(Normalised(search))
    ensures Matches(RowId(digits, name), Encode(Normalised(search))) <==> Normalised(search) <= name
  {
    RowIdGivesName(digits, name);
    PrefixExact(Normalised(search), name);
  }

  /** A row is shown exactly if its name starts with the query. */
  ghost predicate FiltersByPrefix(digits: Text, name: Text, search: Text) {
    Matches(RowId(digits, name), Encode(Normalised(search))) <==> Normalised(search) <= name
  }

  ghost predicate FiltersBelow(n: nat) {
    forall digits, name, search ::
      AllDigits(digits) && Below(name, n) && Below(Normalised(search), n) ==> FiltersByPrefix(digits, name, search)
  }

  /** The query U+0010 "0" also shows the row of U+0100. */
  lemma WideNameIsShown()
    ensures Normalised([0x10, 48]) == [0x10, 48] && !FiltersByPrefix([], [0x100], [0x10, 48])
  {
    var search: Text := [0x10, 48];
    assert StripLeading(search) == search && StripTrailing(search) == search;
    assert Lower(search) == search;
    FirstCollision();
    RowIdGivesName([], [0x100]);
  }

  /** The filter shows just the rows whose names start with the query exactly for alphabets of up to 256 units. */
  lemma FiltersExactly(n: nat)
    ensures FiltersBelow(n) <==> n <= 256
  {
    if n <= 256 {
      forall digits, name, search | AllDigits(digits) && Below(name, n) && Below(Normalised(search), n)
        ensures FiltersByPrefix(digits, name, search)
      {
        ShownExactly(digits, name, search);
      }
    } else {
      WideNameIsShown();
      FirstCollision();
      assert AllDigits([]) && Below([0x100], n) && Below([0x10, 48], n);
    }
  }
}
