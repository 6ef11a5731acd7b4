/** The list of spreadsheets the export writes to: identifiers registered in the
    `spreadsheets` table and in the comma-separated `GOOGLE_SPREADSHEET_IDS` setting, each
    given either as a bare identifier or as a Google Sheets URL. */
module SpreadsheetIds {
  import opened Wrappers
  import opened Strings
  import opened Dedup

  /** The path segment of a Google Sheets URL that precedes the identifier. */
  const Marker: string := "/spreadsheets/d/"

  /** The characters of the identifier pattern `[a-zA-Z0-9-_]`. */
  predicate IsIdChar(c: char) {
    ('a' <= c <= 'z') || ('A' <= c <= 'Z') || ('0' <= c <= '9') || c == '-' || c == '_'
  }

  predicate AllIdChars(s: string) {
    forall i :: 0 <= i < |s| ==> IsIdChar(s[i])
  }

  /** Length of the longest prefix of `s` made of identifier characters (the greedy `+`). */
  function IdRun(s: string): (n: nat)
    ensures n <= |s|
    ensures AllIdChars(s[..n])
    ensures n < |s| ==> !IsIdChar(s[n])
  {
    if s == [] || !IsIdChar(s[0]) then 0
    else
      var n := 1 + IdRun(s[1..]);
      assert forall i :: 1 <= i < n ==> s[..n][i] == s[1..][..n - 1][i - 1];
      n
  }

  /** The pattern matches at position `p`: the marker starts there and at least one
      identifier character follows it. */
  predicate MatchAt(s: string, p: nat) {
    p + |Marker| < |s| && s[p..p + |Marker|] == Marker && IsIdChar(s[p + |Marker|])
  }

  /** The leftmost position at or after `from` where the pattern matches (regular
      expression search tries start positions from left to right). */
  function FirstMatch(s: string, from: nat): (r: Option<nat>)
    requires from <= |s|
    ensures r.Some? ==> from <= r.value && MatchAt(s, r.value)
    ensures r.Some? ==> forall q :: from <= q < r.value ==> !MatchAt(s, q)
    ensures r.None? ==> forall q :: from <= q ==> !MatchAt(s, q)
    decreases |s| - from
  {
    if from == |s| then None
    else if MatchAt(s, from) then Some(from)
    else FirstMatch(s, from + 1)
  }

  /** Identifier characters are neither whitespace nor `/` nor `,`. */
  lemma IdCharIsPlain(c: char)
    requires IsIdChar(c)
    ensures !IsSpace(c) && c != '/' && c != ','
  {
  }

  /** The identifier the pattern captures at a match: the identifier characters that
      follow the marker, as many as there are. */
  function Captured(s: string, p: nat): (id: string)
    requires MatchAt(s, p)
    ensures id != [] && AllIdChars(id)
    ensures p + |Marker| + |id| <= |s| && id == s[p + |Marker|..p + |Marker| + |id|]
    ensures p + |Marker| + |id| < |s| ==> !IsIdChar(s[p + |Marker| + |id|])
  {
    var start := p + |Marker|;
    var n := IdRun(s[start..]);
    assert n >= 1 by { assert s[start..][0] == s[start]; }
    assert s[start..][..n] == s[start..start + n];
    assert start + n < |s| ==> s[start..][n] == s[start + n];
    s[start..start + n]
  }

  /** `extractSpreadsheetId`: `None` (null) for a blank value; otherwise the identifier
      captured after the first `/spreadsheets/d/` in the trimmed value, or the trimmed
      value itself when the pattern does not match. */
  function ExtractSpreadsheetId(value: string): (r: Option<string>)
    ensures r.None? <==> IsBlank(value)
    ensures r.Some? ==> r.value != [] && !IsSpace(r.value[0]) && !IsSpace(r.value[|r.value| - 1])
  {
    var trimmed := Trim(value);
    if trimmed == [] then None
    else
      match FirstMatch(trimmed, 0)
      case Some(p) =>
        var id := Captured(trimmed, p);
        IdCharIsPlain(id[0]);
        IdCharIsPlain(id[|id| - 1]);
        Some(id)
      case None => Some(trimmed)
  }

  /** A value the pattern matches yields identifier characters only; any other non-blank
      value yields its trimmed self. */
  lemma ExtractCases(value: string)
    requires !IsBlank(value)
    ensures FirstMatch(Trim(value), 0).Some? ==> AllIdChars(ExtractSpreadsheetId(value).value)
    ensures FirstMatch(Trim(value), 0).None? ==> ExtractSpreadsheetId(value) == Some(Trim(value))
  {
  }

  /** A string without `/` never matches: the marker begins with one. */
  lemma NoMatchWithoutSlash(s: string)
    requires '/' !in s
    ensures FirstMatch(s, 0).None?
  {
    forall q: nat | q < |s| ensures !MatchAt(s, q) {
      assert s[q] in s;
    }
  }

  /** A bare identifier is extracted as itself. */
  lemma ExtractBareId(id: string)
    requires id != [] && AllIdChars(id)
    ensures ExtractSpreadsheetId(id) == Some(id)
  {
    IdCharIsPlain(id[0]);
    IdCharIsPlain(id[|id| - 1]);
    TrimOfTrimmed(id);
    assert '/' !in id by {
      forall i | 0 <= i < |id| ensures id[i] != '/' {
        IdCharIsPlain(id[i]);
      }
    }
    NoMatchWithoutSlash(id);
  }

  /** Extracting from an extracted identifier changes nothing: a captured identifier
      holds no `/`, and a trimmed value that did not match still does not. */
  lemma ExtractIdempotent(value: string)
    requires ExtractSpreadsheetId(value).Some?
    ensures ExtractSpreadsheetId(ExtractSpreadsheetId(value).value) == ExtractSpreadsheetId(value)
  {
    var id := ExtractSpreadsheetId(value).value;
    ExtractCases(value);
    if FirstMatch(Trim(value), 0).Some? {
      ExtractBareId(id);
    } else {
      TrimIdempotent(value);
    }
  }

  lemma SliceOfSlice(s: string, t: string, u: string, b: nat, e: nat, i: nat, j: nat)
    requires b <= e <= |s| && t == s[b..e] && i <= j <= |t| && u == t[i..j]
    ensures u == s[b + i..b + j]
  {
    assert forall k :: 0 <= k < j - i ==> u[k] == s[b + i..b + j][k];
  }

  /** A captured identifier is a piece of the value. */
  lemma CapturedIsSlice(value: string, p: nat) returns (b: nat, e: nat)
    requires FirstMatch(Trim(value), 0) == Some(p)
    ensures b <= e <= |value| && ExtractSpreadsheetId(value).value == value[b..e]
  {
    ExtractAtMatch(value, p);
    b, e := CapturedInValue(value, p);
  }

  /** Where the identifier captured in the trimmed value sits in the value. */
  lemma CapturedInValue(value: string, p: nat) returns (b: nat, e: nat)
    requires MatchAt(Trim(value), p)
    ensures b <= e <= |value| && Captured(Trim(value), p) == value[b..e]
  {
    var trimmed := Trim(value);
    var tb, te := TrimSlice(value);
    var id := Captured(trimmed, p);
    var start := p + |Marker|;
    b, e := tb + start, tb + start + |id|;
    SliceOfSlice(value, trimmed, id, tb, te, start, start + |id|);
  }

  /** The identifier is a piece of the value it came from. */
  lemma ExtractIsSlice(value: string) returns (b: nat, e: nat)
    requires ExtractSpreadsheetId(value).Some?
    ensures b <= e <= |value| && ExtractSpreadsheetId(value).value == value[b..e]
  {
    var r := FirstMatch(Trim(value), 0);
    if r.Some? {
      b, e := CapturedIsSlice(value, r.value);
    } else {
      b, e := TrimSlice(value);
    }
  }

  /** Every character of an extracted identifier occurs in the value. */
  lemma ExtractedCharsOccur(value: string, c: char)
    requires ExtractSpreadsheetId(value).Some?
    requires c !in value
    ensures c !in ExtractSpreadsheetId(value).value
  {
    var b, e := ExtractIsSlice(value);
    var id := ExtractSpreadsheetId(value).value;
    forall j | 0 <= j < |id| ensures id[j] != c {
      assert id[j] == value[b + j];
    }
  }

  /** At a leftmost match the captured identifier is extracted. */
  lemma ExtractAtMatch(value: string, p: nat)
    requires FirstMatch(Trim(value), 0) == Some(p)
    ensures ExtractSpreadsheetId(value) == Some(Captured(Trim(value), p))
  {
  }

  /** The leftmost match is the one with no match before it. */
  lemma FirstMatchAt(s: string, p: nat)
    requires MatchAt(s, p)
    requires forall q :: 0 <= q < p ==> !MatchAt(s, q)
    ensures FirstMatch(s, 0) == Some(p)
  {
  }

  /** No match starts inside a prefix each of whose `/` is followed, inside it, by
      something other than `s`. */
  lemma NoMatchInPrefix(prefix: string, s: string)
    requires prefix <= s
    requires forall q :: 0 <= q < |prefix| && prefix[q] == '/' ==> q + 1 < |prefix| && prefix[q + 1] != 's'
    ensures forall q :: 0 <= q < |prefix| ==> !MatchAt(s, q)
  {
    forall q | 0 <= q < |prefix| ensures !MatchAt(s, q) {
      if prefix[q] == '/' {
        assert s[q + 1] == prefix[q + 1];
        assert q + |Marker| < |s| ==> s[q..q + |Marker|][1] == s[q + 1];
      } else {
        assert q + |Marker| < |s| ==> s[q..q + |Marker|][0] == s[q];
      }
    }
  }

  /** The pattern matches right after the prefix and captures exactly `id`. */
  lemma CapturedAfterPrefix(prefix: string, id: string, suffix: string)
    requires id != [] && AllIdChars(id)
    requires suffix != [] ==> !IsIdChar(suffix[0])
    ensures MatchAt(prefix + Marker + id + suffix, |prefix|)
    ensures Captured(prefix + Marker + id + suffix, |prefix|) == id
  {
    var s := prefix + Marker + id + suffix;
    var start := |prefix| + |Marker|;
    assert s[|prefix|..start] == Marker;
    assert s[start] == id[0];
    var c := Captured(s, |prefix|);
    assert s[start..start + |id|] == id;
  }

  /** A text that starts and ends with non-whitespace is its own trim. */
  lemma UrlIsTrimmed(prefix: string, id: string, suffix: string)
    requires prefix != [] ==> !IsSpace(prefix[0])
    requires id != [] && AllIdChars(id)
    requires suffix != [] ==> !IsSpace(suffix[|suffix| - 1])
    ensures Trim(prefix + Marker + id + suffix) == prefix + Marker + id + suffix
  {
    var s := prefix + Marker + id + suffix;
    IdCharIsPlain(id[|id| - 1]);
    assert s[0] == if prefix == [] then '/' else prefix[0];
    assert s[|s| - 1] == if suffix == [] then id[|id| - 1] else suffix[|suffix| - 1];
    TrimOfTrimmed(s);
  }

  /** A Google Sheets URL yields the identifier after the marker, provided each earlier
      `/` in the text is followed by something other than `s` and the text has no
      surrounding whitespace (`https://docs.google.com/spreadsheets/d/<id>/edit` is such
      a URL). */
  lemma ExtractFromUrl(prefix: string, id: string, suffix: string)
    requires forall q :: 0 <= q < |prefix| && prefix[q] == '/' ==> q + 1 < |prefix| && prefix[q + 1] != 's'
    requires prefix != [] ==> !IsSpace(prefix[0])
    requires id != [] && AllIdChars(id)
    requires suffix != [] ==> !IsIdChar(suffix[0]) && !IsSpace(suffix[|suffix| - 1])
    ensures ExtractSpreadsheetId(prefix + Marker + id + suffix) == Some(id)
  {
    var s := prefix + Marker + id + suffix;
    UrlIsTrimmed(prefix, id, suffix);
    assert prefix <= s;
    NoMatchInPrefix(prefix, s);
    CapturedAfterPrefix(prefix, id, suffix);
    FirstMatchAt(s, |prefix|);
    ExtractAtMatch(s, |prefix|);
  }

  /** The identifiers a list of values yields, in order, blanks dropped
      (`.map(extractSpreadsheetId).filter(Boolean)`). */
  function IdsOf(values: seq<string>): (ids: seq<string>)
    ensures |ids| <= |values|
    ensures forall i :: 0 <= i < |ids| ==> ids[i] != []
  {
    if values == [] then []
    else
      match ExtractSpreadsheetId(values[0])
      case Some(id) => [id] + IdsOf(values[1..])
      case None => IdsOf(values[1..])
  }

  /** An identifier is listed exactly when some value yields it. */
  lemma IdsOfMembers(values: seq<string>)
    ensures forall id :: id in IdsOf(values) <==> exists i :: 0 <= i < |values| && ExtractSpreadsheetId(values[i]) == Some(id)
  {
    forall id | id in IdsOf(values)
      ensures exists i :: 0 <= i < |values| && ExtractSpreadsheetId(values[i]) == Some(id)
    {
      var i := IdsOfSource(values, id);
    }
    forall id | exists i :: 0 <= i < |values| && ExtractSpreadsheetId(values[i]) == Some(id)
      ensures id in IdsOf(values)
    {
      var i :| 0 <= i < |values| && ExtractSpreadsheetId(values[i]) == Some(id);
      IdsOfComplete(values, i);
    }
  }

  /** A listed identifier comes from some value. */
  lemma {:induction false} IdsOfSource(values: seq<string>, id: string) returns (i: nat)
    requires id in IdsOf(values)
    ensures i < |values| && ExtractSpreadsheetId(values[i]) == Some(id)
  {
    var x := ExtractSpreadsheetId(values[0]);
    if x == Some(id) {
      i := 0;
    } else {
      assert IdsOf(values) == (if x.Some? then [x.value] else []) + IdsOf(values[1..]);
      var k := IdsOfSource(values[1..], id);
      i := k + 1;
      assert values[i] == values[1..][k];
    }
  }

  /** Every value that yields an identifier has it listed. */
  lemma {:induction false} IdsOfComplete(values: seq<string>, i: nat)
    requires i < |values| && ExtractSpreadsheetId(values[i]).Some?
    ensures ExtractSpreadsheetId(values[i]).value in IdsOf(values)
  {
    if i > 0 {
      assert values[1..][i - 1] == values[i];
      IdsOfComplete(values[1..], i - 1);
    }
  }

  lemma {:induction false} IdsOfAppend(a: seq<string>, b: seq<string>)
    ensures IdsOf(a + b) == IdsOf(a) + IdsOf(b)
  {
    if a != [] {
      assert (a + b)[1..] == a[1..] + b;
      IdsOfAppend(a[1..], b);
    } else {
      assert a + b == b;
    }
  }

  /** Values that are already bare identifiers come through unchanged. */
  lemma {:induction false} IdsOfBareIds(ids: seq<string>)
    requires forall i :: 0 <= i < |ids| ==> ids[i] != [] && AllIdChars(ids[i])
    ensures IdsOf(ids) == ids
  {
    if ids != [] {
      ExtractBareId(ids[0]);
      IdsOfBareIds(ids[1..]);
    }
  }

  /** A character no value holds is in none of the identifiers. */
  lemma IdsOfExclude(values: seq<string>, c: char)
    requires forall i :: 0 <= i < |values| ==> c !in values[i]
    ensures forall i :: 0 <= i < |IdsOf(values)| ==> c !in IdsOf(values)[i]
  {
    var ids := IdsOf(values);
    IdsOfMembers(values);
    forall i | 0 <= i < |ids| ensures c !in ids[i] {
      assert ids[i] in ids;
      var k :| 0 <= k < |values| && ExtractSpreadsheetId(values[k]) == Some(ids[i]);
      ExtractedCharsOccur(values[k], c);
    }
  }

  /** `parseEnvSpreadsheetIds`: an unset or empty setting gives no identifiers; otherwise
      the identifiers of its comma-separated entries, in order. */
  function ParseEnvSpreadsheetIds(raw: Option<string>): (ids: seq<string>)
    ensures raw.None? || raw == Some("") ==> ids == []
    ensures forall i :: 0 <= i < |ids| ==> ids[i] != [] && ',' !in ids[i]
  {
    if raw.None? || raw.value == "" then []
    else
      var pieces := Split(raw.value, ',');
      IdsOfExclude(pieces, ',');
      IdsOf(pieces)
  }

  /** Writing identifiers into the setting comma-separated reads them back unchanged. */
  lemma ParseEnvJoinRoundTrip(ids: seq<string>)
    requires forall i :: 0 <= i < |ids| ==> ids[i] != [] && AllIdChars(ids[i])
    ensures ParseEnvSpreadsheetIds(Some(Join(ids, ','))) == ids
  {
    if ids != [] {
      IdsHaveNoComma(ids);
      JoinNonEmpty(ids);
      SplitJoin(ids, ',');
      IdsOfBareIds(ids);
      ParseEnvSplits(Join(ids, ','));
    }
  }

  lemma IdsHaveNoComma(ids: seq<string>)
    requires forall i :: 0 <= i < |ids| ==> AllIdChars(ids[i])
    ensures forall i :: 0 <= i < |ids| ==> ',' !in ids[i]
  {
    forall i | 0 <= i < |ids| ensures ',' !in ids[i] {
      forall j | 0 <= j < |ids[i]| ensures ids[i][j] != ',' {
        IdCharIsPlain(ids[i][j]);
      }
    }
  }

  lemma JoinNonEmpty(ids: seq<string>)
    requires ids != [] && ids[0] != []
    ensures Join(ids, ',') != []
  {
    if |ids| > 1 {
      assert Join(ids, ',') == ids[0] + [','] + Join(ids[1..], ',');
    }
  }

  /** A non-empty setting is split at commas. */
  lemma ParseEnvSplits(raw: string)
    requires raw != []
    ensures ParseEnvSpreadsheetIds(Some(raw)) == IdsOf(Split(raw, ','))
  {
  }

  /** `getSpreadsheetIds`: identifiers from the table rows, then from the setting, each
      kept once at its first position (`Array.from(new Set([...dbIds, ...envIds]))`). */
  function GetSpreadsheetIds(dbValues: seq<string>, envRaw: Option<string>): (ids: seq<string>)
    ensures forall i, j :: 0 <= i < j < |ids| ==> ids[i] != ids[j]
    ensures forall id :: id in ids <==> id in IdsOf(dbValues) || id in ParseEnvSpreadsheetIds(envRaw)
    ensures forall i :: 0 <= i < |ids| ==> ids[i] != []
  {
    var all := IdsOf(dbValues) + ParseEnvSpreadsheetIds(envRaw);
    var ids := DedupBy(all, Identity);
    DedupIdentityMembers(all);
    forall i | 0 <= i < |ids| ensures ids[i] != [] {
      assert ids[i] in all;
      var k :| 0 <= k < |all| && all[k] == ids[i];
    }
    ids
  }

  /** The table's identifiers keep their order and come first; the setting contributes
      only identifiers the table lacks. */
  lemma GetSpreadsheetIdsTableFirst(dbValues: seq<string>, envRaw: Option<string>)
    ensures var fromTable := DedupBy(IdsOf(dbValues), Identity);
            var ids := GetSpreadsheetIds(dbValues, envRaw);
            |fromTable| <= |ids| && ids[..|fromTable|] == fromTable
            && forall j :: |fromTable| <= j < |ids| ==> ids[j] !in IdsOf(dbValues)
  {
    var db := IdsOf(dbValues);
    var env := ParseEnvSpreadsheetIds(envRaw);
    DedupByAppend(db, env, Identity);
    KeysOfIdentity(db);
  }
}
