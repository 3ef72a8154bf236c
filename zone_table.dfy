/** The zone table the resolver loads at startup from `prefix/len,label`
    lines: a map from prefix text to zone label, and, separately, the list
    of prefix lengths in line order. */
module ZoneTable {
  import opened Outcome

  /** Java's `String.indexOf(c)`: the first position of `c`, or -1. */
  function IndexOf(s: string, c: char): (k: int)
    ensures -1 <= k < |s|
    ensures k >= 0 ==> s[k] == c
    ensures forall i :: 0 <= i < |s| && (k < 0 || i < k) ==> s[i] != c
  {
    if s == [] then -1
    else if s[0] == c then 0
    else var k := IndexOf(s[1..], c); if k < 0 then -1 else k + 1
  }

  predicate IsDigit(c: char)
  {
    '0' <= c <= '9'
  }

  predicate AllDigits(s: string)
  {
    forall i :: 0 <= i < |s| ==> IsDigit(s[i])
  }

  /** The value of a string of decimal digits. */
  function DecimalValue(s: string): nat
    requires AllDigits(s)
  {
    if s == [] then 0 else 10 * DecimalValue(s[..|s| - 1]) + (s[|s| - 1] as int - '0' as int)
  }

  const INT_MIN: int := -0x8000_0000
  const INT_MAX: int := 0x7FFF_FFFF

  /** `Integer.parseInt` on ASCII text: an optional sign, then at least one
      digit '0' to '9', with the value in the 32-bit range. */
  function ParseInt(s: string): (r: Result<int>)
    ensures r.Ok? ==> INT_MIN <= r.value <= INT_MAX
    ensures r.Ok? ==> |s| > 0 && AllDigits(if s[0] == '-' || s[0] == '+' then s[1..] else s)
    ensures r.Err? ==> r.fault == NumberFormat
  {
    if |s| == 0 then Err(NumberFormat)
    else
      var digits := if s[0] == '-' || s[0] == '+' then s[1..] else s;
      if |digits| == 0 || !AllDigits(digits) then Err(NumberFormat)
      else
        var v: int := if s[0] == '-' then 0 - (DecimalValue(digits) as int) else DecimalValue(digits);
        if INT_MIN <= v <= INT_MAX then Ok(v) else Err(NumberFormat)
  }

  /** The decimal digits of `n`, without leading zeros. */
  function DecimalText(n: nat): (s: string)
    ensures |s| > 0 && AllDigits(s)
  {
    var d := ['0' + ((n % 10) as char)];
    if n < 10 then d else DecimalText(n / 10) + d
  }

  lemma {:induction false} DecimalValueOfText(n: nat)
    ensures DecimalValue(DecimalText(n)) == n
  {
    var s := DecimalText(n);
    if n >= 10 {
      DecimalValueOfText(n / 10);
      assert s[..|s| - 1] == DecimalText(n / 10);
    }
  }

  /** `parseInt` reads back the decimal text of every non-negative int. */
  lemma ParseIntOfDecimalText(n: nat)
    requires n <= INT_MAX
    ensures ParseInt(DecimalText(n)) == Ok(n)
  {
    DecimalValueOfText(n);
  }

  /** The two zone structures: `ipZoneMap` and `netmaskList`. */
  datatype Table = Table(zones: map<string, string>, netmasks: seq<int>)

  /** One line of the loop in `formcsvMap`: the zone is everything after
      the first ','; the text before it is cut at its first '/' into the
      map key and the prefix length. The map is updated before the prefix
      length is parsed, so a bad length leaves the new map entry in place.
      A line with no ',', or no '/' before its first ',', throws before
      anything is stored. */
  function LineEffect(t: Table, line: string): (Table, Option<Fault>)
  {
    var comma := IndexOf(line, ',');
    if comma < 0 then (t, Some(IndexOutOfBounds))
    else
      var ip, region := line[..comma], line[comma + 1..];
      var slash := IndexOf(ip, '/');
      if slash < 0 then (t, Some(IndexOutOfBounds))
      else
        var t1 := t.(zones := t.zones[ip[..slash] := region]);
        match ParseInt(ip[slash + 1..])
        case Err(f) => (t1, Some(f))
        case Ok(n) => (t1.(netmasks := t.netmasks + [n]), None)
  }

  /** The whole loop: lines in order, stopping at the first exception. */
  function LoadLines(t: Table, lines: seq<string>): (Table, Option<Fault>)
    decreases |lines|
  {
    if lines == [] then (t, None)
    else
      var (t1, fault) := LineEffect(t, lines[0]);
      if fault.Some? then (t1, fault) else LoadLines(t1, lines[1..])
  }

  lemma {:induction false} IndexOfConcat(a: string, b: string, c: char)
    requires forall i :: 0 <= i < |a| ==> a[i] != c
    ensures IndexOf(a + b, c) == (if IndexOf(b, c) < 0 then -1 else |a| + IndexOf(b, c))
  {
    if a != [] {
      assert (a + b)[0] == a[0] && (a + b)[1..] == a[1..] + b;
      IndexOfConcat(a[1..], b, c);
    } else {
      assert a + b == b;
    }
  }

  /** Cutting `a + [c] + b` at its first `c`, when `a` has none, gives
      back `a` and `b`. */
  lemma SplitAtFirst(a: string, b: string, c: char)
    requires forall i :: 0 <= i < |a| ==> a[i] != c
    ensures var s := a + [c] + b;
      IndexOf(s, c) == |a| && s[..|a|] == a && s[|a| + 1..] == b
  {
    var s := a + [c] + b;
    assert s == a + ([c] + b);
    assert ([c] + b)[0] == c;
    IndexOfConcat(a, [c] + b, c);
    assert s[..|a|] == a && s[|a| + 1..] == b;
  }

  /** A well-formed line `prefix/len,zone` stores `zone` under `prefix`
      and appends the parsed length; the zone is everything after the first
      ',' and may itself hold ',' and '/'. */
  lemma WellFormedLine(t: Table, prefix: string, len: string, zone: string)
    requires forall i :: 0 <= i < |prefix| ==> prefix[i] != ',' && prefix[i] != '/'
    requires forall i :: 0 <= i < |len| ==> len[i] != ','
    requires ParseInt(len).Ok?
    ensures LineEffect(t, ZoneLine(prefix, len, zone))
         == (Table(t.zones[prefix := zone], t.netmasks + [ParseInt(len).value]), None)
  {
    var ip := prefix + ['/'] + len;
    assert ZoneLine(prefix, len, zone) == ip + [','] + zone;
    assert forall i :: 0 <= i < |ip| ==> ip[i] != ',' by {
      forall i | 0 <= i < |ip| ensures ip[i] != ',' {
        if i < |prefix| { assert ip[i] == prefix[i]; }
        else if i > |prefix| { assert ip[i] == len[i - |prefix| - 1]; }
      }
    }
    SplitAtFirst(ip, zone, ',');
    SplitAtFirst(prefix, len, '/');
  }


  /** A line without ',' or without '/' before its first ',' throws and
      changes nothing. */
  lemma MalformedLineChangesNothing(t: Table, line: string)
    requires IndexOf(line, ',') < 0 || IndexOf(line[..IndexOf(line, ',')], '/') < 0
    ensures LineEffect(t, line) == (t, Some(IndexOutOfBounds))
  {
  }

  /** After a load without exception there is one prefix length per line,
      but at most one map entry per line: a repeated prefix overwrites its
      zone and still appends a length. */
  lemma {:induction false} LoadCounts(t: Table, lines: seq<string>)
    ensures var (t1, fault) := LoadLines(t, lines);
      fault.None? ==>
        |t1.netmasks| == |t.netmasks| + |lines| &&
        t.netmasks <= t1.netmasks &&
        |t1.zones.Keys| <= |t.zones.Keys| + |lines|
    decreases |lines|
  {
    if lines != [] {
      var (t1, fault) := LineEffect(t, lines[0]);
      if fault.None? {
        LoadCounts(t1, lines[1..]);
      }
    }
  }

  /** The line `prefix/len,label` as it stands in the zone file. */
  function ZoneLine(prefix: string, len: string, zone: string): string
  {
    prefix + "/" + len + "," + zone
  }

  /** A line whose prefix is already in the map overwrites its label and
      still appends a length, so the map no longer has one entry per
      length. */
  lemma RepeatedPrefixOverwrites(t: Table, prefix: string, len: string, zone: string)
    requires forall i :: 0 <= i < |prefix| ==> prefix[i] != ',' && prefix[i] != '/'
    requires forall i :: 0 <= i < |len| ==> len[i] != ','
    requires ParseInt(len).Ok?
    requires prefix in t.zones
    ensures var (t1, fault) := LineEffect(t, ZoneLine(prefix, len, zone));
      fault.None? && t1.zones.Keys == t.zones.Keys && t1.zones[prefix] == zone &&
      |t1.netmasks| == |t.netmasks| + 1
  {
    WellFormedLine(t, prefix, len, zone);
  }

  /** The static `ipZoneMap` and `netmaskList` that `formcsvMap` fills. */
  class ZoneMapLoader {
    var zoneMap: map<string, string>
    var netmaskList: seq<int>

    function Value(): Table
      reads this
    {
      Table(zoneMap, netmaskList)
    }

    constructor ()
      ensures Value() == Table(map[], [])
    {
      zoneMap := map[];
      netmaskList := [];
    }

    /** `formcsvMap`, given the lines the `Scanner` yields, in order. */
    method FormCsvMap(lines: seq<string>) returns (fault: Option<Fault>)
      modifies this
      ensures (Value(), fault) == LoadLines(old(Value()), lines)
    {
      var i := 0;
      fault := None;
      while i < |lines|
        invariant 0 <= i <= |lines|
        invariant LoadLines(old(Value()), lines) == LoadLines(Value(), lines[i..])
      {
        var line := lines[i];
        var comma := IndexOf(line, ',');
        if comma < 0 {
          return Some(IndexOutOfBounds);
        }
        var ip := line[..comma];
        var region := line[comma + 1..];
        var slashPosition := IndexOf(ip, '/');
        if slashPosition < 0 {
          return Some(IndexOutOfBounds);
        }
        zoneMap := zoneMap[ip[..slashPosition] := region];
        var mask := ParseInt(ip[slashPosition + 1..]);
        if mask.Err? {
          return Some(mask.fault);
        }
        netmaskList := netmaskList + [mask.value];
        assert lines[i..][1..] == lines[i + 1..];
        i := i + 1;
      }
    }
  }
}
