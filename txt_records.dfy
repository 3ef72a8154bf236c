/** TXT augmentation (`addTXTRecords`): for every A record of an answer
    list whose address falls under a zone entry, one TXT record naming the
    zone is appended to the same list. */
module TxtRecords {
  import opened Outcome
  import opened Packet
  import opened PrefixMatch
  import RdataText

  /** One entry of `ipZoneMap`: prefix text and zone label (`region`). */
  datatype ZoneEntry = ZoneEntry(prefix: string, region: string)

  /** The TTL of every TXT record the resolver adds. */
  const TXT_TTL: int := 3600

  /** The answer `isMatch` gives for zone entry `j`, whose prefix length is
      `netmasks[j]`: entries and lengths are paired by position. */
  function EntryMatch(env: HostEnv, ip: string, entries: seq<ZoneEntry>, netmasks: seq<int>, j: nat): Result<bool>
    requires j < |entries| && j < |netmasks|
  {
    IsMatchOutcome(env, ip, entries[j].prefix, netmasks[j])
  }

  /** The inner loop of `addTXTRecords`, from entry `j` on, in the map's
      iteration order: the label of the first matching entry. Entry `j`
      needs `netmaskList.get(j)`, which throws when there are fewer lengths
      than entries. */
  function ZoneFrom(env: HostEnv, ip: string, entries: seq<ZoneEntry>, netmasks: seq<int>, j: nat): Result<Option<string>>
    decreases |entries| - j
  {
    if j >= |entries| then Ok(None)
    else if j >= |netmasks| then Err(IndexOutOfBounds)
    else match EntryMatch(env, ip, entries, netmasks, j)
      case Err(f) => Err(f)
      case Ok(true) => Ok(Some(entries[j].region))
      case Ok(false) => ZoneFrom(env, ip, entries, netmasks, j + 1)
  }

  /** Entry `j` is the first entry from `from` on that matches, and every
      entry before it answered "no match" without throwing. */
  predicate FirstMatchAt(env: HostEnv, ip: string, entries: seq<ZoneEntry>, netmasks: seq<int>, from: nat, j: nat)
  {
    from <= j < |entries| && j < |netmasks| &&
    EntryMatch(env, ip, entries, netmasks, j) == Ok(true) &&
    forall k :: from <= k < j ==> EntryMatch(env, ip, entries, netmasks, k) == Ok(false)
  }

  /** First match wins, not longest prefix: the inner loop finds label `z`
      exactly when some entry holding `z` is the first entry to match. */
  lemma {:induction false} ZoneFromIsFirstMatch(env: HostEnv, ip: string, entries: seq<ZoneEntry>, netmasks: seq<int>, from: nat, z: string)
    ensures ZoneFrom(env, ip, entries, netmasks, from) == Ok(Some(z))
        <==> exists j: nat :: FirstMatchAt(env, ip, entries, netmasks, from, j) && entries[j].region == z
    decreases |entries| - from
  {
    if from < |entries| && from < |netmasks| {
      ZoneFromIsFirstMatch(env, ip, entries, netmasks, from + 1, z);
      if ZoneFrom(env, ip, entries, netmasks, from) == Ok(Some(z)) {
        if EntryMatch(env, ip, entries, netmasks, from) == Ok(true) {
          assert FirstMatchAt(env, ip, entries, netmasks, from, from);
        } else {
          var j: nat :| FirstMatchAt(env, ip, entries, netmasks, from + 1, j) && entries[j].region == z;
          assert FirstMatchAt(env, ip, entries, netmasks, from, j);
        }
      }
      if exists j: nat :: FirstMatchAt(env, ip, entries, netmasks, from, j) && entries[j].region == z {
        var j: nat :| FirstMatchAt(env, ip, entries, netmasks, from, j) && entries[j].region == z;
        if j > from {
          assert EntryMatch(env, ip, entries, netmasks, from) == Ok(false);
          assert FirstMatchAt(env, ip, entries, netmasks, from + 1, j);
        }
      }
    }
  }

  /** The inner `while(it.hasNext())` loop. */
  method FindZone(env: HostEnv, ip: string, entries: seq<ZoneEntry>, netmasks: seq<int>) returns (r: Result<Option<string>>)
    ensures r == ZoneFrom(env, ip, entries, netmasks, 0)
  {
    var j := 0;
    while j < |entries|
      invariant 0 <= j <= |entries|
      invariant ZoneFrom(env, ip, entries, netmasks, 0) == ZoneFrom(env, ip, entries, netmasks, j)
    {
      if j >= |netmasks| {
        return Err(IndexOutOfBounds);
      }
      var m := IsMatch(env, ip, entries[j].prefix, netmasks[j]);
      if m.Err? {
        return Err(m.fault);
      }
      if m.value {
        return Ok(Some(entries[j].region));
      }
      j := j + 1;
    }
    return Ok(None);
  }

  /** The TXT record one answer record contributes: none for a record that
      is not type A; for an A record, a TXT record with the same name, TTL
      3600 and text `label-ip` when a zone matches its address. The cast of
      an A record's data to an address throws for other data. */
  function TxtFor(env: HostEnv, rec: Record, entries: seq<ZoneEntry>, netmasks: seq<int>): Result<seq<Record>>
  {
    if rec.rtype != TYPE_A then Ok([])
    else if !rec.data.Address? then Err(ClassCast)
    else
      var ip := env.render(rec.data.addr);
      match ZoneFrom(env, ip, entries, netmasks, 0)
      case Err(f) => Err(f)
      case Ok(None) => Ok([])
      case Ok(Some(z)) => Ok([Record(rec.name, TYPE_TXT, TXT_TTL, Text(z + "-" + ip))])
  }

  /** The TXT records a list of answers contributes, in list order; the
      first exception wins. */
  function TxtsFor(env: HostEnv, recs: seq<Record>, entries: seq<ZoneEntry>, netmasks: seq<int>): Result<seq<Record>>
  {
    if recs == [] then Ok([])
    else
      match TxtsFor(env, recs[..|recs| - 1], entries, netmasks)
      case Err(f) => Err(f)
      case Ok(before) =>
        match TxtFor(env, recs[|recs| - 1], entries, netmasks)
        case Err(f) => Err(f)
        case Ok(last) => Ok(before + last)
  }

  /** The answer list after `addTXTRecords`: the old records, then the TXT
      records. */
  function Augmented(env: HostEnv, answers: seq<Record>, entries: seq<ZoneEntry>, netmasks: seq<int>): Result<seq<Record>>
  {
    match TxtsFor(env, answers, entries, netmasks)
    case Err(f) => Err(f)
    case Ok(txts) => Ok(answers + txts)
  }

  /** The positions of the answers that get a TXT record, in list order. */
  function TaggedIndices(env: HostEnv, recs: seq<Record>, entries: seq<ZoneEntry>, netmasks: seq<int>): seq<nat>
  {
    if recs == [] then []
    else
      var last := TxtFor(env, recs[|recs| - 1], entries, netmasks);
      TaggedIndices(env, recs[..|recs| - 1], entries, netmasks)
        + (if last.Ok? && |last.value| > 0 then [|recs| - 1] else [])
  }

  /** `r` is an A record with an address, and some zone entry matches it. */
  ghost predicate HasZone(env: HostEnv, entries: seq<ZoneEntry>, netmasks: seq<int>, r: Record)
  {
    r.rtype == TYPE_A && r.data.Address? &&
    exists j: nat :: FirstMatchAt(env, env.render(r.data.addr), entries, netmasks, 0, j)
  }

  /** `t` is the TXT record for the A record `r`: same name, TTL 3600, and
      the text `label-ip` with the label of the first entry that matches. */
  ghost predicate TxtFromFirstMatch(env: HostEnv, entries: seq<ZoneEntry>, netmasks: seq<int>, t: Record, r: Record)
  {
    r.rtype == TYPE_A && r.data.Address? &&
    var ip := env.render(r.data.addr);
    exists j: nat :: FirstMatchAt(env, ip, entries, netmasks, 0, j) &&
      t == Record(r.name, TYPE_TXT, TXT_TTL, Text(entries[j].region + "-" + ip))
  }

  /** One answer's contribution: a TXT record exactly when it has a zone,
      and then the one for the first matching entry. */
  lemma TxtForShape(env: HostEnv, r: Record, entries: seq<ZoneEntry>, netmasks: seq<int>)
    requires TxtFor(env, r, entries, netmasks).Ok?
    ensures var t := TxtFor(env, r, entries, netmasks).value;
      |t| <= 1 && (|t| == 1 <==> HasZone(env, entries, netmasks, r)) &&
      (|t| == 1 ==> TxtFromFirstMatch(env, entries, netmasks, t[0], r))
  {
    if r.rtype == TYPE_A {
      var ip := env.render(r.data.addr);
      var zone := ZoneFrom(env, ip, entries, netmasks, 0);
      if zone.value.Some? {
        ZoneFromIsFirstMatch(env, ip, entries, netmasks, 0, zone.value.value);
      }
      if HasZone(env, entries, netmasks, r) {
        var j: nat :| FirstMatchAt(env, ip, entries, netmasks, 0, j);
        ZoneFromIsFirstMatch(env, ip, entries, netmasks, 0, entries[j].region);
      }
    }
  }

  /** `txts` holds the TXT records of `recs`, and `src` the positions of
      the answers they are for: one TXT record for each answer that is an A
      record some zone entry matches and for no other, in answer order,
      each with the label of the first entry that matches. */
  ghost predicate TxtShape(env: HostEnv, entries: seq<ZoneEntry>, netmasks: seq<int>,
                           recs: seq<Record>, txts: seq<Record>, src: seq<nat>)
  {
    |txts| == |src| <= |recs| &&
    (forall k :: 0 <= k < |src| ==>
       src[k] < |recs| && TxtFromFirstMatch(env, entries, netmasks, txts[k], recs[src[k]])) &&
    (forall k, l :: 0 <= k < l < |src| ==> src[k] < src[l]) &&
    (forall i :: 0 <= i < |recs| ==> (HasZone(env, entries, netmasks, recs[i]) <==> i in src))
  }

  /** One more answer keeps the shape. */
  lemma TxtShapeStep(env: HostEnv, entries: seq<ZoneEntry>, netmasks: seq<int>,
                     recs: seq<Record>, before: seq<Record>, pre: seq<nat>, last: seq<Record>)
    requires |recs| > 0
    requires TxtShape(env, entries, netmasks, recs[..|recs| - 1], before, pre)
    requires TxtFor(env, recs[|recs| - 1], entries, netmasks) == Ok(last)
    ensures TxtShape(env, entries, netmasks, recs, before + last, pre + (if |last| > 0 then [|recs| - 1] else []))
  {
    var n := |recs| - 1;
    var init := recs[..n];
    TxtForShape(env, recs[n], entries, netmasks);
    var txts, src := before + last, pre + (if |last| > 0 then [n] else []);
    assert forall i :: 0 <= i < n ==> init[i] == recs[i];
    forall k | 0 <= k < |src|
      ensures src[k] < |recs| && TxtFromFirstMatch(env, entries, netmasks, txts[k], recs[src[k]])
    {
      if k < |pre| {
        assert src[k] == pre[k] && txts[k] == before[k];
      } else {
        assert src[k] == n && txts[k] == last[0];
      }
    }
    forall i | 0 <= i < |recs|
      ensures HasZone(env, entries, netmasks, recs[i]) <==> i in src
    {
      if i < n {
        assert (i in src) == (i in pre);
      }
    }
  }

  /** Only what the source promises is appended, as `TxtShape` describes
      it, with the positions `TaggedIndices` lists. */
  lemma {:induction false} TxtsForShape(env: HostEnv, recs: seq<Record>, entries: seq<ZoneEntry>, netmasks: seq<int>)
    ensures TxtsFor(env, recs, entries, netmasks).Ok? ==>
      TxtShape(env, entries, netmasks, recs, TxtsFor(env, recs, entries, netmasks).value,
               TaggedIndices(env, recs, entries, netmasks))
  {
    if recs != [] && TxtsFor(env, recs, entries, netmasks).Ok? {
      var n := |recs| - 1;
      TxtsForShape(env, recs[..n], entries, netmasks);
      TxtShapeStep(env, entries, netmasks, recs, TxtsFor(env, recs[..n], entries, netmasks).value,
                   TaggedIndices(env, recs[..n], entries, netmasks), TxtFor(env, recs[n], entries, netmasks).value);
    }
  }

  /** An answer list without A records gets no TXT record. */
  lemma {:induction false} NoAddressNoTxt(env: HostEnv, recs: seq<Record>, entries: seq<ZoneEntry>, netmasks: seq<int>)
    requires forall i :: 0 <= i < |recs| ==> recs[i].rtype != TYPE_A
    ensures TxtsFor(env, recs, entries, netmasks) == Ok([])
  {
    if recs != [] {
      var init := recs[..|recs| - 1];
      assert forall i :: 0 <= i < |init| ==> init[i] == recs[i];
      var none: seq<Record> := [];
      assert none + none == none;
      NoAddressNoTxt(env, init, entries, netmasks);
      assert TxtFor(env, recs[|recs| - 1], entries, netmasks) == Ok(none);
      assert TxtsFor(env, init, entries, netmasks) == Ok(none);
    }
  }

  /** An exception raised for the first `n` answers is the exception of
      the whole list. */
  lemma {:induction false} TxtsForFaultPersists(env: HostEnv, recs: seq<Record>, entries: seq<ZoneEntry>, netmasks: seq<int>, n: nat)
    requires n <= |recs| && TxtsFor(env, recs[..n], entries, netmasks).Err?
    ensures TxtsFor(env, recs, entries, netmasks) == TxtsFor(env, recs[..n], entries, netmasks)
    decreases |recs| - n
  {
    if n < |recs| {
      var m := |recs| - 1;
      if n == m {
        assert recs[..m] == recs[..n];
      } else {
        assert recs[..m][..n] == recs[..n];
        TxtsForFaultPersists(env, recs[..m], entries, netmasks, n);
      }
    } else {
      assert recs[..n] == recs;
    }
  }

  /** The TXT records of one more answer. */
  lemma TxtsForStep(env: HostEnv, recs: seq<Record>, entries: seq<ZoneEntry>, netmasks: seq<int>, i: nat)
    requires i < |recs|
    ensures TxtsFor(env, recs[..i + 1], entries, netmasks)
         == match TxtsFor(env, recs[..i], entries, netmasks)
            case Err(f) => Err(f)
            case Ok(before) =>
              match TxtFor(env, recs[i], entries, netmasks)
              case Err(f) => Err(f)
              case Ok(last) => Ok(before + last)
  {
    assert recs[..i + 1][..i] == recs[..i] && recs[..i + 1][i] == recs[i];
  }

  /** One answer handled without an exception: its TXT records, `added`,
      go to the end of the list, after those of the answers before it. */
  lemma AppendStep(env: HostEnv, answerList: seq<Record>, entries: seq<ZoneEntry>, netmasks: seq<int>,
                   list: seq<Record>, i: nat, added: seq<Record>)
    requires i < |answerList| <= |list| && list[..|answerList|] == answerList
    requires TxtsFor(env, answerList[..i], entries, netmasks) == Ok(list[|answerList|..])
    requires TxtFor(env, answerList[i], entries, netmasks) == Ok(added)
    ensures (list + added)[..|answerList|] == answerList
    ensures TxtsFor(env, answerList[..i + 1], entries, netmasks) == Ok((list + added)[|answerList|..])
  {
    var n := |answerList|;
    TxtsForStep(env, answerList, entries, netmasks, i);
    assert (list + added)[n..] == list[n..] + added;
    assert (list + added)[..n] == list[..n];
  }

  /** `addTXTRecords`. The list grows while it is walked; the TXT records
      appended at its end fail the type test, so the walk ends. */
  method AddTxtRecords(env: HostEnv, answerList: seq<Record>, entries: seq<ZoneEntry>, netmasks: seq<int>)
    returns (r: Result<seq<Record>>)
    ensures r == Augmented(env, answerList, entries, netmasks)
  {
    var list := answerList;
    var n := |answerList|;
    var i := 0;
    assert answerList[..0] == [] && list[n..] == [];
    while i < |list|
      invariant 0 <= i <= |list|
      invariant n <= |list| <= n + Min(i, n) && list[..n] == answerList
      invariant forall k :: n <= k < |list| ==> list[k].rtype == TYPE_TXT
      invariant TxtsFor(env, answerList[..Min(i, n)], entries, netmasks) == Ok(list[n..])
      decreases 2 * n - i
    {
      if list[i].rtype != TYPE_A {
        if i < n {
          assert list[i] == answerList[i];
          AppendStep(env, answerList, entries, netmasks, list, i, []);
          assert list + [] == list;
        }
        i := i + 1;
        continue;
      }
      assert i < n && list[i] == answerList[i];
      TxtsForStep(env, answerList, entries, netmasks, i);
      if !list[i].data.Address? {
        TxtsForFaultPersists(env, answerList, entries, netmasks, i + 1);
        return Err(ClassCast);
      }
      var ansip := list[i].data.addr;
      var zone := FindZone(env, env.render(ansip), entries, netmasks);
      if zone.Err? {
        TxtsForFaultPersists(env, answerList, entries, netmasks, i + 1);
        return Err(zone.fault);
      }
      if zone.value.None? {
        AppendStep(env, answerList, entries, netmasks, list, i, []);
        assert list + [] == list;
      } else {
        var text := new RdataText.DnsRdataText(zone.value.value + "-" + env.render(ansip));
        var txt := Record(list[i].name, TYPE_TXT, TXT_TTL, Text(text.GetText()));
        AppendStep(env, answerList, entries, netmasks, list, i, [txt]);
        list := list + [txt];
      }
      i := i + 1;
    }
    assert answerList[..n] == answerList && list == answerList + list[n..];
    return Ok(list);
  }

  /** First match, not longest prefix: with `10.0.0.0/8` listed before
      `10.1.0.0/16`, the A record for 10.1.2.3 gets the zone of the /8
      entry, as long as the host parses and renders dotted quads. */
  lemma FirstEntryWinsExample(env: HostEnv)
    requires env.render([10, 1, 2, 3]) == "10.1.2.3"
    requires env.parse("10.1.2.3") == Some([10, 1, 2, 3])
    requires env.parse("10.0.0.0") == Some([10, 0, 0, 0])
    requires env.parse("10.1.0.0") == Some([10, 1, 0, 0])
    ensures var rec := Record("host", TYPE_A, 60, Address([10, 1, 2, 3]));
      TxtFor(env, rec, [ZoneEntry("10.0.0.0", "A"), ZoneEntry("10.1.0.0", "B")], [8, 16])
        == Ok([Record("host", TYPE_TXT, TXT_TTL, Text("A-10.1.2.3"))])
  {
    var ip: seq<bv8>, net: seq<bv8> := [10, 1, 2, 3], [10, 0, 0, 0];
    AgreeIffMaskedPrefix(ip, net, 8);
    assert ip[..1] == net[..1];
    assert MatchOutcome(ip, net, 8) == Ok(true);
    var entries := [ZoneEntry("10.0.0.0", "A"), ZoneEntry("10.1.0.0", "B")];
    assert IsMatchOutcome(env, "10.1.2.3", "10.0.0.0", 8) == Ok(true);
    assert EntryMatch(env, "10.1.2.3", entries, [8, 16], 0) == Ok(true);
    assert ZoneFrom(env, "10.1.2.3", entries, [8, 16], 0) == Ok(Some("A"));
    assert "A" + "-" + "10.1.2.3" == "A-10.1.2.3";
  }
}
