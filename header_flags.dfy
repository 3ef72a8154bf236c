/** The two header-flag setters of the resolver: one for the queries it
    sends upstream, one for the reply it returns to the client. */
module HeaderFlags {
  import opened Packet

  /** `setDNSRequestFlags`: a standard query, not truncated, with recursion
      desired and authenticated data cleared; the other fields are kept. */
  function RequestFlags(f: Flags): (r: Flags)
    ensures r.query && r.opcode == 0 && !r.truncated && r.recursionDesired && !r.authenticated
    ensures r.authoritative == f.authoritative && r.recursionAvailable == f.recursionAvailable
    ensures r.checkingDisabled == f.checkingDisabled && r.rcode == f.rcode
  {
    f.(query := true, opcode := 0, truncated := false, recursionDesired := true, authenticated := false)
  }

  /** `setDNSReplyFlags`: a non-authoritative, untruncated standard response
      with recursion available, success response code, and authenticated
      data and checking disabled cleared. Recursion desired is set whatever
      the client asked. */
  function ReplyFlags(f: Flags): (r: Flags)
    ensures !r.query && r.opcode == 0 && !r.authoritative && !r.truncated
    ensures r.recursionAvailable && r.recursionDesired
    ensures !r.authenticated && !r.checkingDisabled && r.rcode == 0
  {
    Flags(false, 0, false, false, true, true, false, false, 0)
  }

  /** Every header field is assigned, so the reply header does not depend on
      the header it overwrites. */
  lemma ReplyFlagsOverwriteAll(f: Flags, g: Flags)
    ensures ReplyFlags(f) == ReplyFlags(g)
  {
  }

  /** Setting the request flags twice is the same as setting them once. */
  lemma RequestFlagsIdempotent(f: Flags)
    ensures RequestFlags(RequestFlags(f)) == RequestFlags(f)
  {
  }

  method SetDnsRequestFlags(d: Dns)
    modifies d
    ensures d.Value() == old(d.Value()).(flags := RequestFlags(old(d.Value()).flags))
  {
    d.query := true;
    d.opcode := 0;
    d.truncated := false;
    d.recursionDesired := true;
    d.authenticated := false;
  }

  method SetDnsReplyFlags(d: Dns)
    modifies d
    ensures d.Value() == old(d.Value()).(flags := ReplyFlags(old(d.Value()).flags))
  {
    d.query := false;
    d.opcode := 0;
    d.authoritative := false;
    d.truncated := false;
    d.recursionAvailable := true;
    d.recursionDesired := true;
    d.authenticated := false;
    d.checkingDisabled := false;
    d.rcode := 0;
  }
}
