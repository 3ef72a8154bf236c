/** What one pass of the resolution loop promises, stated on `Transition`. */
module ResolutionFacts {
  import opened Outcome
  import opened Packet
  import opened HeaderFlags
  import opened PrefixMatch
  import opened TxtRecords
  import opened Sections
  import opened Resolution

  /** An authority list without an A, AAAA, NS or CNAME record (an SOA-only
      list, say) leaves the remembered authority list as it was; a list
      with one replaces it, filtered when the pass ends in a no-referral
      reply. */
  lemma RememberedAuthority(m: Memory, request: Message, reply: Message,
                            env: HostEnv, entries: seq<ZoneEntry>, netmasks: seq<int>)
    requires |request.questions| > 0
    ensures var m1 := Transition(m, request, reply, env, entries, netmasks).0;
      m1.lastAuth ==
        if !HasUseful(reply.authorities) then m.lastAuth
        else if |reply.answers| == 0 && Referral(reply.authorities, reply.additional) == Ok(None)
        then SkipFilter(reply.authorities)
        else reply.authorities
  {
  }

  /** A non-empty additional list always replaces the remembered one; an
      empty one never does. */
  lemma RememberedAdditional(m: Memory, request: Message, reply: Message,
                             env: HostEnv, entries: seq<ZoneEntry>, netmasks: seq<int>)
    requires |request.questions| > 0
    ensures var m1 := Transition(m, request, reply, env, entries, netmasks).0;
      m1.lastAdd ==
        if |reply.additional| == 0 then m.lastAdd
        else if |reply.answers| == 0 && Referral(reply.authorities, reply.additional) == Ok(None)
        then SkipFilter(reply.additional)
        else reply.additional
  {
  }

  /** A reply without answers whose first glue pair, authority first, names
      an address sends the last query, unchanged, to that address; the
      CNAME chain and the last query stay as they were. */
  lemma ReferralGoesToFirstGlue(m: Memory, request: Message, reply: Message,
                                env: HostEnv, entries: seq<ZoneEntry>, netmasks: seq<int>, i: nat, j: nat)
    requires |request.questions| > 0 && reply.answers == []
    requires FirstPair(reply.authorities, reply.additional, 0, i, j)
    requires reply.additional[j].data.Address?
    ensures var (m1, action) := Transition(m, request, reply, env, entries, netmasks);
      action == Send(m.lastQuery, NameServer(reply.additional[j].data.addr)) &&
      m1.cnames == m.cnames && m1.lastQuery == m.lastQuery
  {
    ReferralIsFirstPair(reply.authorities, reply.additional, 0, reply.additional[j]);
  }

  /** Only the first answer decides the pass: when it is a CNAME, the other
      answers of the reply make no difference. */
  lemma OnlyFirstAnswerDecides(m: Memory, request: Message, r1: Message, r2: Message,
                               env: HostEnv, entries: seq<ZoneEntry>, netmasks: seq<int>)
    requires |request.questions| > 0
    requires |r1.answers| > 0 && |r2.answers| > 0 && r1.answers[0] == r2.answers[0]
    requires r1.answers[0].rtype == TYPE_CNAME
    requires r1.questions == r2.questions && r1.authorities == r2.authorities && r1.additional == r2.additional
    ensures Transition(m, request, r1, env, entries, netmasks) == Transition(m, request, r2, env, entries, netmasks)
  {
  }

  /** A CNAME answer joins the chain, and a one-question query for its
      target, with the type of the reply's question, request flags and the
      client's identifier, goes to the root server and becomes the last
      query. */
  lemma CnameFollowUp(m: Memory, request: Message, reply: Message,
                      env: HostEnv, entries: seq<ZoneEntry>, netmasks: seq<int>)
    requires |request.questions| > 0 && |reply.answers| > 0 && |reply.questions| > 0
    requires reply.answers[0].rtype == TYPE_CNAME && reply.answers[0].data.Name?
    ensures var (m1, action) := Transition(m, request, reply, env, entries, netmasks);
      action.Send? && action.dest == RootServer && action.payload.Encoded? &&
      var q := action.payload.msg;
      q.id == request.id &&
      q.questions == [Question(reply.answers[0].data.target, reply.questions[0].qtype)] &&
      q.answers == [] && q.authorities == [] && q.additional == [] &&
      q.flags.query && q.flags.opcode == 0 && !q.flags.truncated &&
      q.flags.recursionDesired && !q.flags.authenticated &&
      m1.cnames == m.cnames + [reply.answers[0]] && m1.lastQuery == action.payload
  {
  }

  /** A CNAME whose data is not a name still joins the chain before the
      cast throws. */
  lemma CnameChainedBeforeCast(m: Memory, request: Message, reply: Message,
                               env: HostEnv, entries: seq<ZoneEntry>, netmasks: seq<int>)
    requires |request.questions| > 0 && |reply.answers| > 0
    requires reply.answers[0].rtype == TYPE_CNAME && !reply.answers[0].data.Name?
    ensures var (m1, action) := Transition(m, request, reply, env, entries, netmasks);
      action == Fail(ClassCast) && m1.cnames == m.cnames + [reply.answers[0]]
  {
  }

  /** The reply for a non-CNAME answer to a question that is not of type A:
      the chain newest first ahead of the reply's answers, each empty
      section replaced by the remembered one, the client's question, and
      the reply's own identifier. */
  lemma FinalReplyFor(m: Memory, request: Message, reply: Message,
                      env: HostEnv, entries: seq<ZoneEntry>, netmasks: seq<int>)
    requires |request.questions| > 0 && request.questions[0].qtype != TYPE_A
    requires |reply.answers| > 0 && reply.answers[0].rtype != TYPE_CNAME
    ensures var (m1, action) := Transition(m, request, reply, env, entries, netmasks);
      action.Answer? &&
      var msg := action.msg;
      msg.id == reply.id && msg.questions == request.questions &&
      msg.answers == NewestFirst(m.cnames) + reply.answers &&
      msg.authorities == (if reply.authorities == [] then m.lastAuth else reply.authorities) &&
      msg.additional == (if reply.additional == [] then m.lastAdd else reply.additional) &&
      m1.cnames == m.cnames
  {
  }

  /** For an A question the answers are followed by their TXT records:
      the chain comes first, newest first, then the reply's answers
      unchanged in their places, then one TXT record for each answer that
      is an A record some zone entry matches, in answer order, with the
      label of the first entry that matches. The reply keeps its own
      identifier, gets the client's question, and each empty section is
      replaced by the remembered one. */
  lemma FinalReplyWithTxt(m: Memory, request: Message, reply: Message,
                          env: HostEnv, entries: seq<ZoneEntry>, netmasks: seq<int>, txts: seq<Record>)
    requires |request.questions| > 0 && request.questions[0].qtype == TYPE_A
    requires |reply.answers| > 0 && reply.answers[0].rtype != TYPE_CNAME
    requires TxtsFor(env, reply.answers, entries, netmasks) == Ok(txts)
    ensures var (m1, action) := Transition(m, request, reply, env, entries, netmasks);
      action.Answer? &&
      var msg := action.msg;
      msg.id == reply.id && msg.questions == request.questions &&
      msg.authorities == OrElse(reply.authorities, m.lastAuth) &&
      msg.additional == OrElse(reply.additional, m.lastAdd) &&
      m1.cnames == m.cnames &&
      var answers := msg.answers;
      var c, n := |m.cnames|, |reply.answers|;
      c + n <= |answers| <= c + 2 * n &&
      (forall k :: 0 <= k < c ==> answers[k] == m.cnames[c - 1 - k]) &&
      answers[c..c + n] == reply.answers && answers[c + n..] == txts &&
      TxtShape(env, entries, netmasks, reply.answers, txts, TaggedIndices(env, reply.answers, entries, netmasks))
  {
    FinalAnswersWithTxt(m, request, reply, env, entries, netmasks, txts);
    TxtsForShape(env, reply.answers, entries, netmasks);
    NewestFirstReverses(m.cnames);
    ChainAnswersTxts(NewestFirst(m.cnames), reply.answers, txts);
  }

  /** The final reply to an A question, field by field. */
  lemma FinalAnswersWithTxt(m: Memory, request: Message, reply: Message,
                            env: HostEnv, entries: seq<ZoneEntry>, netmasks: seq<int>, txts: seq<Record>)
    requires |request.questions| > 0 && request.questions[0].qtype == TYPE_A
    requires |reply.answers| > 0 && reply.answers[0].rtype != TYPE_CNAME
    requires TxtsFor(env, reply.answers, entries, netmasks) == Ok(txts)
    ensures var (m1, action) := Transition(m, request, reply, env, entries, netmasks);
      action.Answer? &&
      action.msg.answers == NewestFirst(m.cnames) + (reply.answers + txts) &&
      action.msg.id == reply.id && action.msg.questions == request.questions &&
      action.msg.authorities == OrElse(reply.authorities, m.lastAuth) &&
      action.msg.additional == OrElse(reply.additional, m.lastAdd) &&
      m1.cnames == m.cnames
  {
  }

  /** An exception from the TXT addition for an A question (a record of
      type A without address data, or an exception from `isMatch` or from
      reading the prefix lengths) ends the pass with that exception. */
  lemma FinalTxtFault(m: Memory, request: Message, reply: Message,
                      env: HostEnv, entries: seq<ZoneEntry>, netmasks: seq<int>)
    requires |request.questions| > 0 && request.questions[0].qtype == TYPE_A
    requires |reply.answers| > 0 && reply.answers[0].rtype != TYPE_CNAME
    requires TxtsFor(env, reply.answers, entries, netmasks).Err?
    ensures Transition(m, request, reply, env, entries, netmasks).1
         == Fail(TxtsFor(env, reply.answers, entries, netmasks).fault)
  {
  }

  /** Where the three parts of the final answer list sit. */
  lemma ChainAnswersTxts(chain: seq<Record>, recs: seq<Record>, txts: seq<Record>)
    ensures var answers := chain + (recs + txts);
      var c, n := |chain|, |recs|;
      |answers| == c + n + |txts| &&
      (forall k :: 0 <= k < c ==> answers[k] == chain[k]) &&
      answers[c..c + n] == recs && answers[c + n..] == txts
  {
    var answers := chain + (recs + txts);
    assert answers[|chain|..|chain| + |recs|] == recs;
    assert answers[|chain| + |recs|..] == txts;
  }

  /** The reply when a zero-answer reply gives no referral: the client's
      identifier and question, the chain newest first as the only answers,
      and the filtered sections. The authority list falls back to the
      remembered one only when it held no useful record and the filter left
      nothing. Because the remembered additional list is the same list
      object as a non-empty additional section, such a section that the
      filter empties leaves the reply's additional section empty. */
  lemma NoReferralReplyFor(m: Memory, request: Message, reply: Message,
                           env: HostEnv, entries: seq<ZoneEntry>, netmasks: seq<int>)
    requires |request.questions| > 0 && reply.answers == []
    requires Referral(reply.authorities, reply.additional) == Ok(None)
    ensures var action := Transition(m, request, reply, env, entries, netmasks).1;
      action.Answer? &&
      var msg := action.msg;
      msg.id == request.id && msg.questions == request.questions &&
      msg.flags == ReplyFlags(DEFAULT_FLAGS) &&
      msg.answers == NewestFirst(m.cnames) &&
      msg.authorities == (if HasUseful(reply.authorities) then SkipFilter(reply.authorities)
                          else OrElse(SkipFilter(reply.authorities), m.lastAuth)) &&
      msg.additional == (if |reply.additional| > 0 then SkipFilter(reply.additional) else m.lastAdd) &&
      (HasUseful(reply.authorities) ==> Allowed(msg.authorities) == Allowed(reply.authorities))
  {
    SkipFilterKeepsNonEmpty(reply.authorities);
    SkipFilterKeepsUseful(reply.authorities);
    assert NewestFirst(m.cnames) + reply.answers == NewestFirst(m.cnames);
    if |reply.additional| == 0 {
      assert SkipFilter(reply.additional) == [];
    }
  }

  /** Every reply for the client carries the reply header: a response, a
      standard query, not authoritative, not truncated, recursion available
      and desired, no authenticated data, checking not disabled, no error. */
  lemma ClientRepliesHaveReplyFlags(m: Memory, request: Message, reply: Message,
                                    env: HostEnv, entries: seq<ZoneEntry>, netmasks: seq<int>)
    requires |request.questions| > 0
    ensures var action := Transition(m, request, reply, env, entries, netmasks).1;
      action.Answer? ==>
        var f := action.msg.flags;
        !f.query && f.opcode == 0 && !f.authoritative && !f.truncated &&
        f.recursionAvailable && f.recursionDesired && !f.authenticated && !f.checkingDisabled && f.rcode == 0
  {
  }

  /** Two CNAME passes and then a final answer: the chain is listed newest
      first ahead of the answers, which for an A question are followed by
      their TXT records, and the reply carries the client's question. */
  lemma CnameChainNewestFirst(queryBytes: seq<bv8>, request: Message, r1: Message, r2: Message, r3: Message,
                              env: HostEnv, entries: seq<ZoneEntry>, netmasks: seq<int>, txts: seq<Record>)
    requires |request.questions| > 0
    requires |r1.answers| > 0 && r1.answers[0].rtype == TYPE_CNAME && r1.answers[0].data.Name? && |r1.questions| > 0
    requires |r2.answers| > 0 && r2.answers[0].rtype == TYPE_CNAME && r2.answers[0].data.Name? && |r2.questions| > 0
    requires |r3.answers| > 0 && r3.answers[0].rtype != TYPE_CNAME
    requires request.questions[0].qtype == TYPE_A ==> TxtsFor(env, r3.answers, entries, netmasks) == Ok(txts)
    ensures var m1 := Transition(InitialMemory(queryBytes), request, r1, env, entries, netmasks).0;
      var m2 := Transition(m1, request, r2, env, entries, netmasks).0;
      var action := Transition(m2, request, r3, env, entries, netmasks).1;
      action.Answer? && action.msg.questions == request.questions &&
      action.msg.answers == [r2.answers[0], r1.answers[0]] + r3.answers
                            + (if request.questions[0].qtype == TYPE_A then txts else [])
  {
    var m1 := Transition(InitialMemory(queryBytes), request, r1, env, entries, netmasks).0;
    var m2 := Transition(m1, request, r2, env, entries, netmasks).0;
    assert m2.cnames == [r1.answers[0], r2.answers[0]];
    var c := m2.cnames;
    assert c[..|c| - 1] == [r1.answers[0]];
    assert NewestFirst([r1.answers[0]]) == [r1.answers[0]];
    if request.questions[0].qtype == TYPE_A {
      FinalAnswersWithTxt(m2, request, r3, env, entries, netmasks, txts);
    } else {
      FinalReplyFor(m2, request, r3, env, entries, netmasks);
    }
  }
}
