/**
 * The loop of `readBansFromFile` over the lines of the ban list: skip blank
 * lines and `//` comments, drop lines whose parse fails, and append every
 * other parse result in order (including the zero-value `Ban`s of lines with
 * an unsupported number of colons).
 */
module Loader {
  import opened Outcomes
  import opened GoStrings
  import opened Bans

  /** A blank line or a comment line. */
  predicate IsSkipped(line: string)
  {
    HasPrefix(line, "//") || line == ""
  }

  /** What one line adds to the list of bans: nothing, or its parsed `Ban`. */
  function LineBans(line: string): (bs: seq<Ban>)
    ensures |bs| <= 1
  {
    if IsSkipped(line) then []
    else match ParseBan(line)
      case Ok(b) => [b]
      case Err(_) => []
  }

  /** The bans the whole list of lines yields, in line order. */
  function LoadBans(lines: seq<string>): (bans: seq<Ban>)
    ensures |bans| <= |lines|
  {
    if |lines| == 0 then []
    else LoadBans(lines[..|lines| - 1]) + LineBans(lines[|lines| - 1])
  }

  /** The scanner loop of `readBansFromFile`, over lines already read. */
  method ReadBans(lines: seq<string>) returns (bans: seq<Ban>)
    ensures bans == LoadBans(lines)
  {
    bans := [];
    for i := 0 to |lines|
      invariant bans == LoadBans(lines[..i])
    {
      assert lines[..i + 1][..i] == lines[..i];
      var line := lines[i];
      if HasPrefix(line, "//") || line == "" {
        continue;
      }
      var parsed := ParseBan(line);
      if parsed.Err? {
        // reported on the console by `readBansFromFile`; the line is dropped
        continue;
      }
      bans := bans + [parsed.value];
    }
    assert lines[..|lines|] == lines;
  }

  /** Loading is line by line: the bans of two blocks of lines are those of each, in order. */
  lemma {:induction false} LoadBansAppend(l1: seq<string>, l2: seq<string>)
    ensures LoadBans(l1 + l2) == LoadBans(l1) + LoadBans(l2)
  {
    if |l2| == 0 {
      assert l1 + l2 == l1;
    } else {
      var l := l1 + l2;
      var l2', last := l2[..|l2| - 1], l2[|l2| - 1];
      assert l[..|l| - 1] == l1 + l2';
      assert l[|l| - 1] == last;
      var b1, b2', b := LoadBans(l1), LoadBans(l2'), LineBans(last);
      calc {
        LoadBans(l);
        LoadBans(l1 + l2') + b;
        { LoadBansAppend(l1, l2'); }
        (b1 + b2') + b;
        { ConcatAssoc(b1, b2', b); }
        b1 + (b2' + b);
        b1 + LoadBans(l2);
      }
    }
  }

  lemma ConcatAssoc<T>(a: seq<T>, b: seq<T>, c: seq<T>)
    ensures (a + b) + c == a + (b + c)
  {
  }

  /** A single line loads as its own contribution. */
  lemma LoadSingle(line: string)
    ensures LoadBans([line]) == LineBans(line)
  {
    assert [line][..0] == [];
  }

  /** A skipped line, or one whose parse fails, adds nothing wherever it stands. */
  lemma LoadBansDropsLine(l1: seq<string>, line: string, l2: seq<string>)
    requires IsSkipped(line) || ParseBan(line).Err?
    ensures LoadBans(l1 + [line] + l2) == LoadBans(l1 + l2)
  {
    assert LineBans(line) == [];
    LoadBansAppend(l1 + [line], l2);
    LoadBansAppend(l1, [line]);
    LoadBansAppend(l1, l2);
    LoadSingle(line);
  }

  /** Any other line adds its parsed `Ban` exactly at its place. */
  lemma LoadBansKeepsLine(l1: seq<string>, line: string, l2: seq<string>)
    requires !IsSkipped(line) && ParseBan(line).Ok?
    ensures LoadBans(l1 + [line] + l2) == LoadBans(l1) + [ParseBan(line).value] + LoadBans(l2)
  {
    LoadBansAppend(l1 + [line], l2);
    LoadBansAppend(l1, [line]);
    LoadSingle(line);
  }

  /**
   * Every loaded ban is the successful parse of a line of the input that is
   * neither blank nor a comment; it is either the zero-value `Ban` or carries
   * that line verbatim, and its expiration is not negative.
   */
  lemma {:induction false} LoadedBansOrigin(lines: seq<string>, k: nat)
    requires k < |LoadBans(lines)|
    ensures var b := LoadBans(lines)[k];
      && (exists i :: 0 <= i < |lines| && !IsSkipped(lines[i]) && ParseBan(lines[i]) == Ok(b))
      && (b == ZeroBan || (b.rawLine in lines && !IsSkipped(b.rawLine)))
      && b.expiration >= 0
  {
    var n := |lines| - 1;
    var prefix := LoadBans(lines[..n]);
    if k < |prefix| {
      LoadedBansOrigin(lines[..n], k);
      var i :| 0 <= i < n && !IsSkipped(lines[..n][i]) && ParseBan(lines[..n][i]) == Ok(prefix[k]);
      assert lines[i] == lines[..n][i];
      var b := prefix[k];
      if b != ZeroBan {
        assert b.rawLine in lines[..n];
      }
    } else {
      assert LoadBans(lines)[k] == LineBans(lines[n])[0];
    }
  }

  /** A line that is not skipped and has neither one nor two colons loads as the zero-value `Ban`. */
  lemma LoadOddLine(line: string)
    requires !IsSkipped(line)
    requires Count(line, ':') != 1 && Count(line, ':') != 2
    ensures LoadBans([line]) == [ZeroBan]
  {
    ParseOther(line);
    LoadSingle(line);
  }
}
