/** The list loops of one resolution step: the test for a useful
    authority section, the search for a referral, the in-place filter of
    the sections of a final reply, and the insertion of the CNAME chain
    in front of the answers. */
module Sections {
  import opened Outcome
  import opened Packet

  /** A `java.util.ArrayList` of resource records. The resolver keeps
      references to the lists of a decoded reply, so a list changed in
      place is changed for every holder of the reference. */
  class RecordList {
    var items: seq<Record>

    constructor (s: seq<Record>)
      ensures items == s
    {
      items := s;
    }

    /** `add(e)`. */
    method Add(e: Record)
      modifies this
      ensures items == old(items) + [e]
    {
      items := items + [e];
    }

    /** `add(0, e)`. */
    method AddFirst(e: Record)
      modifies this
      ensures items == [e] + old(items)
    {
      items := [e] + items;
    }

    /** `remove(i)`: the later elements move down by one place. */
    method RemoveAt(i: nat)
      requires i < |items|
      modifies this
      ensures items == old(items[..i]) + old(items[i + 1..])
    {
      items := items[..i] + items[i + 1..];
    }
  }

  /** The record types the resolver counts as useful: A, AAAA, NS, CNAME. */
  predicate IsUseful(t: int)
  {
    t == TYPE_A || t == TYPE_AAAA || t == TYPE_NS || t == TYPE_CNAME
  }

  predicate HasUseful(rs: seq<Record>)
  {
    exists i :: 0 <= i < |rs| && IsUseful(rs[i].rtype)
  }

  /** The `listContainsNonSOA` scan of an authority list. */
  method ContainsUseful(authorityList: seq<Record>) returns (listContainsNonSOA: bool)
    ensures listContainsNonSOA == HasUseful(authorityList)
  {
    listContainsNonSOA := false;
    var i := 0;
    while i < |authorityList|
      invariant 0 <= i <= |authorityList|
      invariant forall k :: 0 <= k < i ==> !IsUseful(authorityList[k].rtype)
    {
      var t := authorityList[i].rtype;
      if t == TYPE_A {
        listContainsNonSOA := true;
        break;
      } else if t == TYPE_AAAA {
        listContainsNonSOA := true;
        break;
      } else if t == TYPE_NS {
        listContainsNonSOA := true;
        break;
      } else if t == TYPE_CNAME {
        listContainsNonSOA := true;
        break;
      }
      i := i + 1;
    }
  }

  // ---------------------------------------------------------------------
  // The filter loops of the no-match reply

  /** What the filter loop leaves of a list: a record that is not useful is
      removed, and the record that moves into its place is passed over
      without being tested. */
  function SkipFilter(s: seq<Record>): seq<Record>
    decreases |s|
  {
    if s == [] then []
    else if !IsUseful(s[0].rtype) then
      (if |s| == 1 then [] else [s[1]] + SkipFilter(s[2..]))
    else [s[0]] + SkipFilter(s[1..])
  }

  /** The useful records of a list, in order: what a filter that tested
      every record would leave. */
  function Allowed(s: seq<Record>): seq<Record>
    decreases |s|
  {
    if s == [] then []
    else (if IsUseful(s[0].rtype) then [s[0]] else []) + Allowed(s[1..])
  }

  /** What the filter will have made of `s` once it is done, when the loop
      has reached index `i`: the records before `i` stay, and `SkipFilter`
      handles the rest. */
  function FilterProgress(s: seq<Record>, i: nat): seq<Record>
  {
    if i <= |s| then s[..i] + SkipFilter(s[i..]) else s
  }

  /** One pass of the filter loop that removes record `i`: the record
      that moves into place `i` is not tested. */
  lemma FilterRemoveStep(before: seq<Record>, i: nat)
    requires i < |before| && !IsUseful(before[i].rtype)
    ensures FilterProgress(before[..i] + before[i + 1..], i + 1) == FilterProgress(before, i)
  {
    var after := before[..i] + before[i + 1..];
    if i + 1 <= |after| {
      assert before[i..][2..] == before[i + 2..] == after[i + 1..];
      assert before[i..][1] == before[i + 1];
      assert after[..i + 1] == before[..i] + [before[i + 1]];
    } else {
      assert after == before[..i];
    }
  }

  /** One pass of the filter loop that keeps record `i`. */
  lemma FilterKeepStep(before: seq<Record>, i: nat)
    requires i < |before| && IsUseful(before[i].rtype)
    ensures FilterProgress(before, i + 1) == FilterProgress(before, i)
  {
    assert before[i..][1..] == before[i + 1..];
    assert before[..i + 1] == before[..i] + [before[i]];
  }

  /** The loop has passed the end of the list. */
  lemma FilterDone(s: seq<Record>, i: nat)
    requires i >= |s|
    ensures FilterProgress(s, i) == s
  {
    if i == |s| {
      assert s[..i] == s && s[i..] == [];
    }
  }

  /** The loop `for (i = 0; i < list.size(); i++) if (!useful) list.remove(i);`. */
  method FilterInPlace(list: RecordList)
    modifies list
    ensures list.items == SkipFilter(old(list.items))
  {
    ghost var orig := list.items;
    var i := 0;
    assert orig[..0] + SkipFilter(orig[0..]) == SkipFilter(orig) by {
      assert orig[..0] == [] && orig[0..] == orig;
    }
    while i < |list.items|
      invariant i <= |list.items| + 1
      invariant SkipFilter(orig) == FilterProgress(list.items, i)
      decreases |list.items| + 1 - i
    {
      if !IsUseful(list.items[i].rtype) {
        FilterRemoveStep(list.items, i);
        list.RemoveAt(i);
      } else {
        FilterKeepStep(list.items, i);
      }
      i := i + 1;
    }
    FilterDone(list.items, i);
  }

  lemma AllowedConcat(a: seq<Record>, b: seq<Record>)
    ensures Allowed(a + b) == Allowed(a) + Allowed(b)
  {
    if a != [] {
      assert (a + b)[1..] == a[1..] + b;
      AllowedConcat(a[1..], b);
    } else {
      assert a + b == b;
    }
  }

  /** The filter never drops a useful record: the useful records of its
      result are those of its input, in the same order. */
  lemma {:induction false} SkipFilterKeepsUseful(s: seq<Record>)
    ensures Allowed(SkipFilter(s)) == Allowed(s)
    decreases |s|
  {
    if s == [] {
    } else if !IsUseful(s[0].rtype) {
      if |s| > 1 {
        SkipFilterKeepsUseful(s[2..]);
        AllowedConcat([s[1]], SkipFilter(s[2..]));
        assert s[1..][1..] == s[2..];
        assert Allowed(s[1..]) == Allowed([s[1]]) + Allowed(s[2..]);
      }
    } else {
      SkipFilterKeepsUseful(s[1..]);
      AllowedConcat([s[0]], SkipFilter(s[1..]));
    }
  }

  /** Every record the filter keeps was in the list, and the list does not
      grow. */
  lemma {:induction false} SkipFilterShrinks(s: seq<Record>)
    ensures |SkipFilter(s)| <= |s|
    ensures forall r :: r in SkipFilter(s) ==> r in s
    decreases |s|
  {
    if s == [] {
    } else if !IsUseful(s[0].rtype) {
      if |s| > 1 {
        SkipFilterShrinks(s[2..]);
        assert forall r :: r in s[2..] ==> r in s;
      }
    } else {
      SkipFilterShrinks(s[1..]);
      assert forall r :: r in s[1..] ==> r in s;
    }
  }

  lemma {:induction false} AllowedFindsUseful(s: seq<Record>)
    ensures HasUseful(s) <==> Allowed(s) != []
    decreases |s|
  {
    if s != [] {
      AllowedFindsUseful(s[1..]);
      if HasUseful(s) && !IsUseful(s[0].rtype) {
        var i :| 0 <= i < |s| && IsUseful(s[i].rtype);
        assert s[1..][i - 1] == s[i];
      }
      if HasUseful(s[1..]) {
        var i :| 0 <= i < |s[1..]| && IsUseful(s[1..][i].rtype);
        assert s[i + 1] == s[1..][i];
      }
    }
  }

  /** A list holding a useful record is not emptied by the filter. */
  lemma SkipFilterKeepsNonEmpty(s: seq<Record>)
    ensures HasUseful(s) ==> SkipFilter(s) != []
  {
    SkipFilterKeepsUseful(s);
    AllowedFindsUseful(s);
  }

  predicate NoAdjacentUseless(s: seq<Record>)
  {
    forall i :: 0 <= i < |s| - 1 ==> IsUseful(s[i].rtype) || IsUseful(s[i + 1].rtype)
  }

  /** Where no two records that are not useful stand side by side, the
      filter removes exactly the records that are not useful. */
  lemma {:induction false} SkipFilterExactWithoutRuns(s: seq<Record>)
    requires NoAdjacentUseless(s)
    ensures SkipFilter(s) == Allowed(s)
    decreases |s|
  {
    if s == [] {
    } else if !IsUseful(s[0].rtype) {
      if |s| > 1 {
        assert IsUseful(s[1].rtype);
        assert NoAdjacentUseless(s[2..]) by {
          forall i | 0 <= i < |s[2..]| - 1
            ensures IsUseful(s[2..][i].rtype) || IsUseful(s[2..][i + 1].rtype)
          {
            assert s[2..][i] == s[i + 2] && s[2..][i + 1] == s[i + 3];
          }
        }
        SkipFilterExactWithoutRuns(s[2..]);
        assert s[1..][1..] == s[2..];
        assert Allowed(s[1..]) == [s[1]] + Allowed(s[2..]);
      }
    } else {
      assert NoAdjacentUseless(s[1..]) by {
        forall i | 0 <= i < |s[1..]| - 1
          ensures IsUseful(s[1..][i].rtype) || IsUseful(s[1..][i + 1].rtype)
        {
          assert s[1..][i] == s[i + 1] && s[1..][i + 1] == s[i + 2];
        }
      }
      SkipFilterExactWithoutRuns(s[1..]);
    }
  }

  /** Of two records that are not useful, side by side, the second one
      survives the filter. */
  lemma SkipFilterMissesSecondOfPair(x: Record, y: Record)
    requires !IsUseful(x.rtype) && !IsUseful(y.rtype)
    ensures SkipFilter([x, y]) == [y]
    ensures Allowed([x, y]) == []
  {
    assert [x, y][2..] == [];
    assert [x, y][1..] == [y] && [y][1..] == [];
    assert Allowed([y]) == [];
  }

  // ---------------------------------------------------------------------
  // The CNAME chain

  /** The chain as the reply lists it: the newest CNAME first. */
  function NewestFirst(cnames: seq<Record>): seq<Record>
    decreases |cnames|
  {
    if cnames == [] then [] else [cnames[|cnames| - 1]] + NewestFirst(cnames[..|cnames| - 1])
  }

  lemma {:induction false} NewestFirstLength(cnames: seq<Record>)
    ensures |NewestFirst(cnames)| == |cnames|
    decreases |cnames|
  {
    if cnames != [] {
      NewestFirstLength(cnames[..|cnames| - 1]);
    }
  }

  lemma {:induction false} NewestFirstAt(cnames: seq<Record>, k: nat)
    requires k < |cnames|
    ensures |NewestFirst(cnames)| == |cnames| && NewestFirst(cnames)[k] == cnames[|cnames| - 1 - k]
    decreases |cnames|
  {
    NewestFirstLength(cnames);
    if k > 0 {
      var init := cnames[..|cnames| - 1];
      NewestFirstAt(init, k - 1);
      assert NewestFirst(cnames)[k] == NewestFirst(init)[k - 1];
    }
  }

  /** The CNAMEs stand in reverse order of arrival. */
  lemma NewestFirstReverses(cnames: seq<Record>)
    ensures |NewestFirst(cnames)| == |cnames|
    ensures forall k :: 0 <= k < |cnames| ==> NewestFirst(cnames)[k] == cnames[|cnames| - 1 - k]
  {
    NewestFirstLength(cnames);
    forall k | 0 <= k < |cnames|
      ensures NewestFirst(cnames)[k] == cnames[|cnames| - 1 - k]
    {
      NewestFirstAt(cnames, k);
    }
  }

  /** `for (i = 0; i < cnameList.size(); i++) finalAnswerList.add(0, cnameList.get(i));` */
  method PrependCnames(cnameList: seq<Record>, finalAnswerList: RecordList)
    modifies finalAnswerList
    ensures finalAnswerList.items == NewestFirst(cnameList) + old(finalAnswerList.items)
  {
    var i := 0;
    while i < |cnameList|
      invariant 0 <= i <= |cnameList|
      invariant finalAnswerList.items == NewestFirst(cnameList[..i]) + old(finalAnswerList.items)
    {
      finalAnswerList.AddFirst(cnameList[i]);
      assert cnameList[..i + 1][..i] == cnameList[..i];
      i := i + 1;
    }
    assert cnameList[..i] == cnameList;
  }

  // ---------------------------------------------------------------------
  // The referral search

  /** Additional record `a` is the glue for authority record `ns`: `ns` is
      an NS record naming the owner of the A record `a`. */
  predicate Glue(ns: Record, a: Record)
  {
    ns.rtype == TYPE_NS && ns.data.Name? && a.name == ns.data.target && a.rtype == TYPE_A
  }

  /** The inner loop over the additional list, from position `j`: the first
      glue record for `ns`. */
  function GlueFrom(ns: Record, add: seq<Record>, j: nat): Option<Record>
    decreases |add| - j
  {
    if j >= |add| then None
    else if Glue(ns, add[j]) then Some(add[j])
    else GlueFrom(ns, add, j + 1)
  }

  /** The outer loop over the authority list, from position `i`. The data
      of authority record `i` is cast to a name at the top of the inner
      loop, before the NS type is tested, so it throws whenever that loop
      runs at all, that is whenever the additional list is not empty. */
  function ReferralFrom(auth: seq<Record>, add: seq<Record>, i: nat): Result<Option<Record>>
    decreases |auth| - i
  {
    if i >= |auth| then Ok(None)
    else if |add| > 0 && !auth[i].data.Name? then Err(ClassCast)
    else match GlueFrom(auth[i], add, 0)
      case Some(a) => Ok(Some(a))
      case None => ReferralFrom(auth, add, i + 1)
  }

  /** The address of the next name server, if the sections name one: the
      glue record's data is cast to an address. */
  function Referral(auth: seq<Record>, add: seq<Record>): Result<Option<seq<bv8>>>
  {
    match ReferralFrom(auth, add, 0)
    case Err(f) => Err(f)
    case Ok(None) => Ok(None)
    case Ok(Some(a)) => if a.data.Address? then Ok(Some(a.data.addr)) else Err(ClassCast)
  }

  /** The two nested loops of the zero-answer branch and the cast after
      them. `found` stands for the pair `matchFound`/`addRR`. */
  method FindNextServer(authorityList: seq<Record>, additionalList: seq<Record>)
    returns (nextNSAddress: Result<Option<seq<bv8>>>)
    ensures nextNSAddress == Referral(authorityList, additionalList)
  {
    var found: Option<Record> := None;
    var i := 0;
    while i < |authorityList|
      invariant 0 <= i <= |authorityList|
      invariant found.None?
      invariant ReferralFrom(authorityList, additionalList, 0) == ReferralFrom(authorityList, additionalList, i)
    {
      var authRR := authorityList[i];
      var j := 0;
      while j < |additionalList|
        invariant 0 <= j <= |additionalList|
        invariant found.None?
        invariant j > 0 ==> authRR.data.Name?
        invariant GlueFrom(authRR, additionalList, 0) == GlueFrom(authRR, additionalList, j)
      {
        var addRR := additionalList[j];
        if !authRR.data.Name? {
          return Err(ClassCast);
        }
        var nsName := authRR.data.target;
        if authRR.rtype == TYPE_NS && addRR.name == nsName && addRR.rtype == TYPE_A {
          found := Some(addRR);
          break;
        }
        j := j + 1;
      }
      if found.Some? {
        break;
      }
      i := i + 1;
    }
    if found.Some? {
      var addRR := found.value;
      if !addRR.data.Address? {
        return Err(ClassCast);
      }
      return Ok(Some(addRR.data.addr));
    }
    return Ok(None);
  }

  /** The search above meets the glue of the first NS record before
      position `i` whose glue it looks for and finds nothing before that. */
  lemma {:induction false} GlueFromIsFirst(ns: Record, add: seq<Record>, from: nat, a: Record)
    ensures GlueFrom(ns, add, from) == Some(a)
        <==> exists j: nat :: from <= j < |add| && add[j] == a && Glue(ns, a) &&
                              forall k :: from <= k < j ==> !Glue(ns, add[k])
    decreases |add| - from
  {
    if from < |add| {
      GlueFromIsFirst(ns, add, from + 1, a);
      if GlueFrom(ns, add, from) == Some(a) && !Glue(ns, add[from]) {
        var j: nat :| from + 1 <= j < |add| && add[j] == a && Glue(ns, a) &&
                        forall k :: from + 1 <= k < j ==> !Glue(ns, add[k]);
        assert forall k :: from <= k < j ==> !Glue(ns, add[k]);
      }
      if exists j: nat :: from <= j < |add| && add[j] == a && Glue(ns, a) &&
                          forall k :: from <= k < j ==> !Glue(ns, add[k]) {
        var j: nat :| from <= j < |add| && add[j] == a && Glue(ns, a) &&
                        forall k :: from <= k < j ==> !Glue(ns, add[k]);
        if j > from {
          assert !Glue(ns, add[from]);
        }
      }
    }
  }

  lemma {:induction false} GlueFromNone(ns: Record, add: seq<Record>, from: nat)
    ensures GlueFrom(ns, add, from) == None <==> forall k :: from <= k < |add| ==> !Glue(ns, add[k])
    decreases |add| - from
  {
    if from < |add| {
      GlueFromNone(ns, add, from + 1);
    }
  }

  /** The pair (authority `i`, additional `j`) is the first pair in list
      order, authority first, where `j` is glue for `i`; every authority
      record before `i` had a name as its data, so no cast threw. */
  predicate FirstPair(auth: seq<Record>, add: seq<Record>, from: nat, i: nat, j: nat)
  {
    from <= i < |auth| && j < |add| && Glue(auth[i], add[j]) &&
    (forall k :: 0 <= k < j ==> !Glue(auth[i], add[k])) &&
    (forall h :: from <= h < i ==> auth[h].data.Name? && forall k :: 0 <= k < |add| ==> !Glue(auth[h], add[k]))
  }

  /** The referral search finds additional record `a` exactly when `a` is
      the glue half of the first matching pair. */
  lemma {:induction false} ReferralIsFirstPair(auth: seq<Record>, add: seq<Record>, from: nat, a: Record)
    ensures ReferralFrom(auth, add, from) == Ok(Some(a))
        <==> exists i: nat, j: nat :: FirstPair(auth, add, from, i, j) && add[j] == a
    decreases |auth| - from
  {
    if from < |auth| {
      ReferralIsFirstPair(auth, add, from + 1, a);
      GlueFromIsFirst(auth[from], add, 0, a);
      GlueFromNone(auth[from], add, 0);
      if ReferralFrom(auth, add, from) == Ok(Some(a)) {
        if GlueFrom(auth[from], add, 0) == Some(a) {
          var j: nat :| 0 <= j < |add| && add[j] == a && Glue(auth[from], a) &&
                          forall k :: 0 <= k < j ==> !Glue(auth[from], add[k]);
          assert FirstPair(auth, add, from, from, j);
        } else {
          var i: nat, j: nat :| FirstPair(auth, add, from + 1, i, j) && add[j] == a;
          assert |add| > 0;
          assert FirstPair(auth, add, from, i, j);
        }
      }
      if exists i: nat, j: nat :: FirstPair(auth, add, from, i, j) && add[j] == a {
        var i: nat, j: nat :| FirstPair(auth, add, from, i, j) && add[j] == a;
        if i > from {
          assert auth[from].data.Name? && forall k :: 0 <= k < |add| ==> !Glue(auth[from], add[k]);
          assert FirstPair(auth, add, from + 1, i, j);
        } else {
          assert GlueFrom(auth[from], add, 0) == Some(a);
        }
      }
    }
  }

  /** With an empty additional section there is no referral. */
  lemma {:induction false} NoAdditionalNoReferral(auth: seq<Record>, from: nat)
    ensures ReferralFrom(auth, [], from) == Ok(None)
    decreases |auth| - from
  {
    if from < |auth| {
      NoAdditionalNoReferral(auth, from + 1);
    }
  }

  /** An authority record whose data is not a name, an SOA record say,
      throws when it comes first and the additional section is not empty,
      even though it is not an NS record. */
  lemma CastBeforeTypeTest(auth: seq<Record>, add: seq<Record>)
    requires |auth| > 0 && |add| > 0 && !auth[0].data.Name?
    ensures Referral(auth, add) == Err(ClassCast)
  {
  }
}
