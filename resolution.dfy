/** One pass of the `while(!resolved)` loop of `recursivelyResolve`:
    given what the resolver remembers and the reply it has just decoded,
    the next query to send and where, or the reply for the client. This is
    iterative resolution in the manner of section 5.3.3 of RFC 1034, with
    the resolver's own rules for what it remembers between passes. */
module Resolution {
  import opened Outcome
  import opened Packet
  import opened HeaderFlags
  import opened PrefixMatch
  import opened TxtRecords
  import opened Sections

  /** The datagram held in `newQueryPacket`: either the client's bytes,
      forwarded unchanged, or a query the resolver built and encoded. */
  datatype Payload = Raw(bytes: seq<bv8>) | Encoded(msg: Message)

  datatype Dest = RootServer | NameServer(addr: seq<bv8>)

  /** What a pass ends with: a query goes out and the loop continues, the
      reply for the client is ready, or an exception ends the resolution. */
  datatype Action =
    | Send(payload: Payload, dest: Dest)
    | Answer(msg: Message)
    | Fail(fault: Fault)

  /** What survives from one pass to the next: `cnameList`, the contents of
      the lists `lastAuthList` and `lastAddList` refer to, and
      `newQueryPacket`. */
  datatype Memory = Memory(cnames: seq<Record>, lastAuth: seq<Record>, lastAdd: seq<Record>, lastQuery: Payload)

  /** The state before the first reply: the client's datagram has gone to
      the root server. */
  function InitialMemory(queryBytes: seq<bv8>): Memory
  {
    Memory([], [], [], Raw(queryBytes))
  }

  /** The remembered sections after a reply arrives: the authority list is
      kept when it holds a useful record, the additional list when it is
      not empty. */
  function Remember(m: Memory, reply: Message): Memory
  {
    m.(lastAuth := if HasUseful(reply.authorities) then reply.authorities else m.lastAuth,
       lastAdd := if |reply.additional| > 0 then reply.additional else m.lastAdd)
  }

  /** `if (list.size() == 0) list = fallback;` */
  function OrElse(s: seq<Record>, fallback: seq<Record>): seq<Record>
  {
    if s == [] then fallback else s
  }

  /** The zero-answer pass that finds no referral, from the memory `kept`
      the reply has already updated. The reply's authority and additional
      lists are filtered in place, and a remembered list that is the same
      list object as one of them is filtered with it. */
  function NoReferral(kept: Memory, request: Message, reply: Message): (Memory, Action)
  {
    var auth, add := SkipFilter(reply.authorities), SkipFilter(reply.additional);
    var filtered := kept.(lastAuth := if HasUseful(reply.authorities) then auth else kept.lastAuth,
                          lastAdd := if |reply.additional| > 0 then add else kept.lastAdd);
    (filtered, Answer(Message(request.id, ReplyFlags(DEFAULT_FLAGS), request.questions,
                              NewestFirst(kept.cnames) + reply.answers,
                              OrElse(auth, filtered.lastAuth), OrElse(add, filtered.lastAdd))))
  }

  /** A pass whose reply has no answer: a referral re-sends the last query
      to the name server the glue names; without one the client gets its
      reply. */
  function ZeroAnswers(kept: Memory, request: Message, reply: Message): (Memory, Action)
  {
    match Referral(reply.authorities, reply.additional)
    case Err(f) => (kept, Fail(f))
    case Ok(Some(addr)) => (kept, Send(kept.lastQuery, NameServer(addr)))
    case Ok(None) => NoReferral(kept, request, reply)
  }

  /** The query that follows a CNAME: a fresh message with request flags,
      the client's identifier and one question for the CNAME target, of
      the type the reply's first question asked for. */
  function CnameQuery(request: Message, target: string, qtype: int): Message
  {
    EMPTY_MESSAGE.(id := request.id, flags := RequestFlags(DEFAULT_FLAGS),
                   questions := [Question(target, qtype)])
  }

  /** A pass whose first answer is a CNAME: the record joins the chain
      before its data is cast to a name and before the reply's question is
      read, and the query for the target goes to the root server. */
  function FollowCname(kept: Memory, request: Message, reply: Message): (Memory, Action)
    requires |reply.answers| > 0
  {
    var answer := reply.answers[0];
    var chained := kept.(cnames := kept.cnames + [answer]);
    if !answer.data.Name? then (chained, Fail(ClassCast))
    else if |reply.questions| == 0 then (chained, Fail(IndexOutOfBounds))
    else
      var q := CnameQuery(request, answer.data.target, reply.questions[0].qtype);
      (chained.(lastQuery := Encoded(q)), Send(Encoded(q), RootServer))
  }

  /** A pass whose first answer is not a CNAME: the reply itself goes back
      to the client, with TXT records for an A question, the chain in front
      of its answers, empty sections filled from memory, the client's
      question and reply flags. Its identifier is left as it is. */
  function Finish(kept: Memory, request: Message, reply: Message,
                  env: HostEnv, entries: seq<ZoneEntry>, netmasks: seq<int>): (Memory, Action)
    requires |request.questions| > 0
  {
    var augmented :=
      if request.questions[0].qtype == TYPE_A then Augmented(env, reply.answers, entries, netmasks)
      else Ok(reply.answers);
    match augmented
    case Err(f) => (kept, Fail(f))
    case Ok(answers) =>
      (kept, Answer(reply.(flags := ReplyFlags(reply.flags), questions := request.questions,
                           answers := NewestFirst(kept.cnames) + answers,
                           authorities := OrElse(reply.authorities, kept.lastAuth),
                           additional := OrElse(reply.additional, kept.lastAdd))))
  }

  /** One pass of the loop, given the decoded reply. `env`, `entries` and
      `netmasks` are what the TXT augmentation reads. */
  function Transition(m: Memory, request: Message, reply: Message,
                      env: HostEnv, entries: seq<ZoneEntry>, netmasks: seq<int>): (Memory, Action)
    requires |request.questions| > 0
  {
    var kept := Remember(m, reply);
    if |reply.answers| == 0 then ZeroAnswers(kept, request, reply)
    else if reply.answers[0].rtype == TYPE_CNAME then FollowCname(kept, request, reply)
    else Finish(kept, request, reply, env, entries, netmasks)
  }

  /** The packet `finalDNSPacket` of the no-referral reply: a fresh `DNS`
      object given the client's question and identifier, reply flags and
      the three answer sections. */
  method NoReferralReply(request: Message, answers: seq<Record>, auth: seq<Record>, add: seq<Record>)
    returns (msg: Message)
    ensures msg == Message(request.id, ReplyFlags(DEFAULT_FLAGS), request.questions, answers, auth, add)
  {
    var finalDNSPacket := new Dns();
    finalDNSPacket.questions := request.questions;
    finalDNSPacket.answers := answers;
    finalDNSPacket.authorities := auth;
    finalDNSPacket.additional := add;
    SetDnsReplyFlags(finalDNSPacket);
    finalDNSPacket.id := request.id;
    return finalDNSPacket.Value();
  }

  /** The decoded reply `dnsReceivePacket` made into the client's reply:
      empty sections taken from the remembered lists, the answers
      `answers`, the client's question and reply flags. */
  method FinalReply(reply: Message, request: Message, answers: seq<Record>, lastAuth: seq<Record>, lastAdd: seq<Record>)
    returns (msg: Message)
    ensures msg == reply.(flags := ReplyFlags(reply.flags), questions := request.questions, answers := answers,
                          authorities := OrElse(reply.authorities, lastAuth), additional := OrElse(reply.additional, lastAdd))
  {
    var dnsReceivePacket := new Dns.Decoded(reply);
    if |dnsReceivePacket.authorities| == 0 {
      dnsReceivePacket.authorities := lastAuth;
    }
    if |dnsReceivePacket.additional| == 0 {
      dnsReceivePacket.additional := lastAdd;
    }
    dnsReceivePacket.answers := answers;
    dnsReceivePacket.questions := request.questions;
    SetDnsReplyFlags(dnsReceivePacket);
    return dnsReceivePacket.Value();
  }

  /** The local state of `recursivelyResolve`. The remembered sections are
      references to list objects, as in the source. */
  class Resolver {
    const request: Message
    var cnameList: RecordList
    var lastAuthList: RecordList
    var lastAddList: RecordList
    var newQueryPacket: Payload

    predicate Valid()
      reads this
    {
      |request.questions| > 0 &&
      cnameList != lastAuthList && cnameList != lastAddList && lastAuthList != lastAddList
    }

    function Remembered(): Memory
      reads this, cnameList, lastAuthList, lastAddList
    {
      Memory(cnameList.items, lastAuthList.items, lastAddList.items, newQueryPacket)
    }

    /** The start of `recursivelyResolve` for the client's decoded request
        `dnsRequestPacket` and its datagram `queryBytes`, which is then sent
        to the root server. The caller has already read the request's first
        question. */
    constructor (dnsRequestPacket: Message, queryBytes: seq<bv8>)
      requires |dnsRequestPacket.questions| > 0
      ensures Valid() && request == dnsRequestPacket
      ensures Remembered() == InitialMemory(queryBytes)
    {
      request := dnsRequestPacket;
      cnameList := new RecordList([]);
      lastAuthList := new RecordList([]);
      lastAddList := new RecordList([]);
      newQueryPacket := Raw(queryBytes);
    }

    /** One pass of the loop on the decoded reply `reply`. */
    method Step(reply: Message, env: HostEnv, entries: seq<ZoneEntry>, netmasks: seq<int>)
      returns (action: Action)
      requires Valid()
      modifies this, cnameList
      ensures Valid()
      ensures (Remembered(), action) == Transition(old(Remembered()), request, reply, env, entries, netmasks)
    {
      ghost var m := Remembered();
      var authorityList := new RecordList(reply.authorities);
      var additionalList := new RecordList(reply.additional);
      var answerList := new RecordList(reply.answers);

      if |authorityList.items| > 0 {
        var listContainsNonSOA := ContainsUseful(authorityList.items);
        if listContainsNonSOA {
          lastAuthList := authorityList;
        }
      }
      if |additionalList.items| > 0 {
        lastAddList := additionalList;
      }
      assert Remembered() == Remember(m, reply);

      if |answerList.items| == 0 {
        action := ZeroAnswerPass(reply, authorityList, additionalList, answerList);
      } else if answerList.items[0].rtype == TYPE_CNAME {
        action := CnamePass(reply);
      } else {
        action := FinalPass(reply, answerList, env, entries, netmasks);
      }
    }

    /** The reply's fresh list objects `authorityList` and
        `additionalList` hold its two sections, and the remembered lists
        refer to them exactly when the reply replaced them. */
    predicate SectionLists(reply: Message, authorityList: RecordList, additionalList: RecordList)
      reads this, authorityList, additionalList
    {
      authorityList.items == reply.authorities && additionalList.items == reply.additional &&
      authorityList != additionalList && cnameList != authorityList && cnameList != additionalList &&
      (if HasUseful(reply.authorities) then lastAuthList == authorityList
       else lastAuthList != authorityList && lastAuthList != additionalList) &&
      (if |reply.additional| > 0 then lastAddList == additionalList
       else lastAddList != authorityList && lastAddList != additionalList)
    }

    /** Besides, `answerList` is a fresh list object holding the answers. */
    predicate ReplyLists(reply: Message, authorityList: RecordList, additionalList: RecordList, answerList: RecordList)
      reads this, authorityList, additionalList, answerList
    {
      SectionLists(reply, authorityList, additionalList) && answerList.items == reply.answers &&
      answerList != authorityList && answerList != additionalList && answerList != cnameList &&
      answerList != lastAuthList && answerList != lastAddList
    }

    /** The branch for a reply without answers. */
    method ZeroAnswerPass(reply: Message, authorityList: RecordList, additionalList: RecordList, answerList: RecordList)
      returns (action: Action)
      requires Valid() && reply.answers == []
      requires ReplyLists(reply, authorityList, additionalList, answerList)
      modifies authorityList, additionalList, answerList
      ensures (Remembered(), action) == ZeroAnswers(old(Remembered()), request, reply)
    {
      var nextNSAddress := FindNextServer(authorityList.items, additionalList.items);
      if nextNSAddress.Err? {
        return Fail(nextNSAddress.fault);
      }
      if nextNSAddress.value.Some? {
        return Send(newQueryPacket, NameServer(nextNSAddress.value.value));
      }
      action := NoReferralPass(reply, authorityList, additionalList, answerList);
    }

    /** The reply built when no referral is found. */
    method NoReferralPass(reply: Message, authorityList: RecordList, additionalList: RecordList, answerList: RecordList)
      returns (action: Action)
      requires Valid()
      requires ReplyLists(reply, authorityList, additionalList, answerList)
      modifies authorityList, additionalList, answerList
      ensures (Remembered(), action) == NoReferral(old(Remembered()), request, reply)
    {
      ghost var m := Remembered();
      PrependCnames(cnameList.items, answerList);
      var answers := answerList.items;
      assert Remembered() == m && answers == NewestFirst(m.cnames) + reply.answers;
      var finalAuth, finalAdd := FilterSections(reply, authorityList, additionalList);
      var finalDNSPacket := NoReferralReply(request, answers, finalAuth, finalAdd);
      return Answer(finalDNSPacket);
    }

    /** The two filter loops of the no-referral reply and the fallback to
        the remembered lists: the sections the reply gets. */
    method FilterSections(reply: Message, authorityList: RecordList, additionalList: RecordList)
      returns (finalAuth: seq<Record>, finalAdd: seq<Record>)
      requires SectionLists(reply, authorityList, additionalList)
      modifies authorityList, additionalList
      ensures var (kept, action) := NoReferral(old(Remembered()), request, reply);
        Remembered() == kept && finalAuth == action.msg.authorities && finalAdd == action.msg.additional
    {
      FilterInPlace(authorityList);
      FilterInPlace(additionalList);
      var finalAuthList := authorityList;
      if |finalAuthList.items| == 0 {
        finalAuthList := lastAuthList;
      }
      var finalAddList := additionalList;
      if |finalAddList.items| == 0 {
        finalAddList := lastAddList;
      }
      return finalAuthList.items, finalAddList.items;
    }

    /** The branch for a reply whose first answer is a CNAME. */
    method CnamePass(reply: Message) returns (action: Action)
      requires Valid() && |reply.answers| > 0 && reply.answers[0].rtype == TYPE_CNAME
      modifies this, cnameList
      ensures Valid()
      ensures (Remembered(), action) == FollowCname(old(Remembered()), request, reply)
    {
      var answer := reply.answers[0];
      cnameList.Add(answer);
      if !answer.data.Name? {
        return Fail(ClassCast);
      }
      if |reply.questions| == 0 {
        return Fail(IndexOutOfBounds);
      }
      var newQuestion := Question(answer.data.target, reply.questions[0].qtype);
      var dnsQueryPacket := new Dns();
      SetDnsRequestFlags(dnsQueryPacket);
      dnsQueryPacket.id := request.id;
      dnsQueryPacket.questions := [newQuestion];
      newQueryPacket := Encoded(dnsQueryPacket.Value());
      return Send(newQueryPacket, RootServer);
    }

    /** The branch for a reply whose first answer is not a CNAME. */
    method FinalPass(reply: Message, answerList: RecordList, env: HostEnv, entries: seq<ZoneEntry>, netmasks: seq<int>)
      returns (action: Action)
      requires Valid() && answerList.items == reply.answers
      requires answerList !in {cnameList, lastAuthList, lastAddList}
      modifies answerList
      ensures (Remembered(), action) == Finish(old(Remembered()), request, reply, env, entries, netmasks)
    {
      ghost var m := Remembered();
      if request.questions[0].qtype == TYPE_A {
        var withTxt := AddTxtRecords(env, answerList.items, entries, netmasks);
        if withTxt.Err? {
          return Fail(withTxt.fault);
        }
        answerList.items := withTxt.value;
      }
      PrependCnames(cnameList.items, answerList);
      assert Remembered() == m;
      var finalReply := FinalReply(reply, request, answerList.items, lastAuthList.items, lastAddList.items);
      return Answer(finalReply);
    }
  }
}
