/**
 * One line of a ban list turned into a `Ban` (`parseBan`). A line is split
 * on `:`; two pieces are the simple format `id:timestamp`, three pieces the
 * complex format `admin:id:timestamp`, and any other number of pieces gives
 * the zero-value `Ban` without an error.
 */
module Bans {
  import opened Outcomes
  import opened GoStrings
  import opened Timestamps

  /** The `Ban` record. `admin`, `adminSteamID` and `comment` are never filled in. */
  datatype Ban = Ban(
    playerSteamID: string,
    expiration: int64,
    admin: string,
    adminSteamID: string,
    comment: string,
    rawLine: string)

  /** Go's zero value of `Ban`. */
  const ZeroBan := Ban("", 0, "", "", "", "")

  /** The error `parseBan` wraps around a failed timestamp parse. */
  datatype ParseError = BadExpiration(cause: NumError)

  /** The record a recognised line gives once its timestamp has parsed. */
  function Parsed(id: string, expiration: int64, line: string): (b: Ban)
  {
    ZeroBan.(playerSteamID := TrimSpace(id), expiration := expiration, rawLine := line)
  }

  /** `parseBan(line)`. */
  function ParseBan(line: string): (r: Result<Ban, ParseError>)
    ensures r.Ok? ==> r.value.admin == "" && r.value.adminSteamID == "" && r.value.comment == ""
    ensures r.Ok? ==> r.value.expiration >= 0
    ensures r.Ok? ==> r.value == ZeroBan || (r.value.rawLine == line && line != "")
  {
    ParseParts(Split(line, ':'), line)
  }

  /** The dispatch of `parseBan` on the pieces of `line`. */
  function ParseParts(parts: seq<string>, line: string): (r: Result<Ban, ParseError>)
    ensures r.Ok? ==> r.value.admin == "" && r.value.adminSteamID == "" && r.value.comment == ""
    ensures r.Ok? ==> r.value.expiration >= 0
    ensures r.Ok? ==> r.value == ZeroBan || (r.value.rawLine == line && |parts| > 1)
  {
    if |parts| == 2 then
      match ToTimestamp(parts[1])
      case Err(e) => Err(BadExpiration(e))
      case Ok(t) => Ok(Parsed(parts[0], t, line))
    else if |parts| == 3 then
      match ToTimestamp(parts[2])
      case Err(e) => Err(BadExpiration(e))
      case Ok(t) => Ok(Parsed(parts[1], t, line))
    else
      Ok(ZeroBan)
  }

  /**
   * A line with exactly one colon: the parse succeeds exactly when the text
   * after the colon yields a timestamp; the ID is the trimmed text before it.
   */
  lemma ParseSimple(line: string)
    requires Count(line, ':') == 1
    ensures var parts := Split(line, ':');
      && |parts| == 2
      && (ParseBan(line).Ok? <==> ToTimestamp(parts[1]).Ok?)
      && (ParseBan(line).Ok? ==>
            ParseBan(line).value == Ban(TrimSpace(parts[0]), ToTimestamp(parts[1]).value, "", "", "", line))
      && (ParseBan(line).Err? ==> ParseBan(line).error == BadExpiration(ToTimestamp(parts[1]).error))
  {
    SplitCount(line, ':');
  }

  /**
   * A line with exactly two colons: the text before the first colon plays no
   * part; the ID is the trimmed middle piece and the timestamp comes from the last.
   */
  lemma ParseComplex(line: string)
    requires Count(line, ':') == 2
    ensures var parts := Split(line, ':');
      && |parts| == 3
      && (ParseBan(line).Ok? <==> ToTimestamp(parts[2]).Ok?)
      && (ParseBan(line).Ok? ==>
            ParseBan(line).value == Ban(TrimSpace(parts[1]), ToTimestamp(parts[2]).value, "", "", "", line))
      && (ParseBan(line).Err? ==> ParseBan(line).error == BadExpiration(ToTimestamp(parts[2]).error))
  {
    SplitCount(line, ':');
    var parts := Split(line, ':');
    assert ParseBan(line) == ParseParts(parts, line);
  }

  /** Any other number of colons: no error, and the zero-value `Ban`. */
  lemma ParseOther(line: string)
    requires Count(line, ':') != 1 && Count(line, ':') != 2
    ensures ParseBan(line) == Ok(ZeroBan)
  {
    SplitCount(line, ':');
  }

  /**
   * Writing a simple line and parsing it back: `id:note<n>` gives the trimmed
   * `id` and expiration `n`, whatever annotation `note` precedes the number,
   * or a range error when `n` does not fit an int64.
   */
  lemma ParseSimpleLine(id: string, note: string, n: nat)
    requires ':' !in id && ':' !in note
    requires |note| == 0 || !IsDigit(note[|note| - 1])
    ensures var line := id + ":" + note + FormatDecimal(n);
      ParseBan(line) == if n <= MaxInt64 then Ok(Ban(TrimSpace(id), n as int64, "", "", "", line))
                        else Err(BadExpiration(ErrRange))
  {
    var ts := note + FormatDecimal(n);
    var line := id + ":" + note + FormatDecimal(n);
    assert line == id + [':'] + ts;
    assert ':' !in ts by {
      assert forall k :: 0 <= k < |ts| ==> ts[k] == if k < |note| then note[k] else FormatDecimal(n)[k - |note|];
    }
    SplitTwo(id, ':', ts);
    assert ParseBan(line) == ParseParts([id, ts], line);
    ToTimestampOfFormat(note, n);
  }

  /**
   * Writing a complex line and parsing it back: `admin:id:note<n>` gives the
   * trimmed `id` and expiration `n`; `admin` is dropped.
   */
  lemma ParseComplexLine(admin: string, id: string, note: string, n: nat)
    requires ':' !in admin && ':' !in id && ':' !in note
    requires |note| == 0 || !IsDigit(note[|note| - 1])
    ensures var line := admin + ":" + id + ":" + note + FormatDecimal(n);
      ParseBan(line) == if n <= MaxInt64 then Ok(Ban(TrimSpace(id), n as int64, "", "", "", line))
                        else Err(BadExpiration(ErrRange))
  {
    var ts := note + FormatDecimal(n);
    var line := admin + ":" + id + ":" + note + FormatDecimal(n);
    assert line == admin + [':'] + id + [':'] + ts;
    assert ':' !in ts by {
      assert forall k :: 0 <= k < |ts| ==> ts[k] == if k < |note| then note[k] else FormatDecimal(n)[k - |note|];
    }
    SplitThree(admin, ':', id, ts);
    assert ParseBan(line) == ParseParts([admin, id, ts], line);
    ToTimestampOfFormat(note, n);
  }

  /**
   * A complex line carrying a `//` comment after its timestamp, as in the
   * format `admin:id:timestamp //comment`, is rejected with a syntax error
   * unless the comment itself ends in a digit: only digits at the very end of
   * the line count as the timestamp.
   */
  lemma ParseCommentedLine(admin: string, id: string, n: nat, comment: string)
    requires ':' !in admin && ':' !in id && ':' !in comment
    requires |comment| == 0 || !IsDigit(comment[|comment| - 1])
    ensures ParseBan(admin + ":" + id + ":" + FormatDecimal(n) + " //" + comment)
         == Err(BadExpiration(ErrSyntax))
  {
    var d := FormatDecimal(n);
    var ts := d + " //" + comment;
    var line := admin + ":" + id + ":" + d + " //" + comment;
    assert line == admin + [':'] + id + [':'] + ts;
    assert ':' !in ts by {
      assert forall k :: 0 <= k < |ts| ==>
        ts[k] == if k < |d| then d[k] else if k < |d| + 3 then " //"[k - |d|] else comment[k - |d| - 3];
    }
    SplitThree(admin, ':', id, ts);
    assert ParseBan(line) == ParseParts([admin, id, ts], line);
    assert ts[|ts| - 1] == if |comment| == 0 then '/' else comment[|comment| - 1];
  }
}
