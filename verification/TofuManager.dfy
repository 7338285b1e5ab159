/** The two programs that share the stores, each running with the other at rest. */
module TofuManager {
  import opened TofuProtocol

  /** The directories `trusted` and `rejected`: the thumbprints that name a file in each. */
  class PkiDirectories {
    var trusted: set<Thumbprint>
    var rejected: set<Thumbprint>

    constructor ()
      ensures trusted == {} && rejected == {}
    {
      trusted, rejected := {}, {};
    }

    ghost function During(call: Call): State
      reads this
    {
      State(trusted, rejected, map[], call, NoReply)
    }

    ghost predicate Holds(s: State)
      reads this
    {
      trusted == s.trusted && rejected == s.rejected
    }

    /** renameSync; false when it throws. */
    method RejectFile(c: Thumbprint, ok: bool) returns (done: bool)
      modifies this
      ensures done == (ok && c in old(trusted))
      ensures trusted == if done then old(trusted) - {c} else old(trusted)
      ensures rejected == if done then old(rejected) + {c} else old(rejected)
    {
      done := ok && c in trusted;
      if done {
        trusted, rejected := trusted - {c}, rejected + {c};
      }
    }

    method TrustFile(c: Thumbprint, ok: bool) returns (done: bool)
      modifies this
      ensures done == (ok && c in old(rejected))
      ensures trusted == if done then old(trusted) + {c} else old(trusted)
      ensures rejected == if done then old(rejected) - {c} else old(rejected)
    {
      done := ok && c in rejected;
      if done {
        trusted, rejected := trusted + {c}, rejected - {c};
      }
    }
  }

  class TofuManager {
    const pki: PkiDirectories

    constructor (pki: PkiDirectories)
      ensures this.pki == pki
    {
      this.pki := pki;
    }

    /** `deleteCertificate`: the trusted copy if there is one, else the rejected copy. */
    method DeleteCertificate(c: Thumbprint, ok: bool) returns (r: Reply)
      modifies pki
      ensures var s := Finished(old(pki.During(DeleteStatTrusted(c))), ok);
        pki.Holds(s) && r == s.reply
      ensures old(Disjoint(pki.During(Idle))) ==> Disjoint(pki.During(Idle))
      ensures r == if c !in old(pki.trusted) && c !in old(pki.rejected) then NotFound
                   else if ok then Success else FileError
      ensures pki.trusted == if r == Success then old(pki.trusted) - {c} else old(pki.trusted)
      ensures pki.rejected ==
        if r == Success && c !in old(pki.trusted) then old(pki.rejected) - {c} else old(pki.rejected)
    {
      FinishedTwoOn(pki.During(DeleteStatTrusted(c)), ok);
      if c in pki.trusted {
        if !ok {
          return FileError;
        }
        pki.trusted := pki.trusted - {c};
      } else if c in pki.rejected {
        if !ok {
          return FileError;
        }
        pki.rejected := pki.rejected - {c};
      } else {
        return NotFound;
      }
      r := Success;
    }

    method RejectCertificate(c: Thumbprint, ok: bool) returns (r: Reply)
      modifies pki
      ensures var s := Finished(old(pki.During(RejectExists(c))), ok);
        pki.Holds(s) && r == s.reply
      ensures old(Disjoint(pki.During(Idle))) ==> Disjoint(pki.During(Idle))
      ensures r == if c !in old(pki.trusted) then NotFound else if ok then Success else FileError
      ensures pki.trusted == if r == Success then old(pki.trusted) - {c} else old(pki.trusted)
      ensures pki.rejected == if r == Success then old(pki.rejected) + {c} else old(pki.rejected)
    {
      FinishedTwoOn(pki.During(RejectExists(c)), ok);
      if c !in pki.trusted {
        return NotFound;
      }
      var done := pki.RejectFile(c, ok);
      r := if done then Success else FileError;
    }

    method TrustCertificate(c: Thumbprint, ok: bool) returns (r: Reply)
      modifies pki
      ensures var s := Finished(old(pki.During(TrustExistsRejected(c))), ok);
        pki.Holds(s) && r == s.reply
      ensures old(Disjoint(pki.During(Idle))) ==> Disjoint(pki.During(Idle))
      ensures r == if c !in old(pki.rejected) then NotFound
                   else if c in old(pki.trusted) then Conflict
                   else if ok then Success else FileError
      ensures pki.trusted == if r == Success then old(pki.trusted) + {c} else old(pki.trusted)
      ensures pki.rejected == if r == Success then old(pki.rejected) - {c} else old(pki.rejected)
    {
      FinishedTwoOn(pki.During(TrustExistsRejected(c)), ok);
      if c !in pki.rejected {
        return NotFound;
      }
      if c in pki.trusted {
        return Conflict;
      }
      var done := pki.TrustFile(c, ok);
      r := if done then Success else FileError;
    }
  }

  /** `tofu_verify_certificate`; each flag is false when the directory or the new file cannot be opened. */
  method TofuVerifyCertificate(pki: PkiDirectories, c: Thumbprint, trustedReadable: bool, rejectedReadable: bool,
                               writable: bool)
    returns (verdict: Verdict)
    modifies pki
    ensures !trustedReadable || !rejectedReadable ==> verdict == Untrusted && pki.Holds(old(pki.During(Idle)))
    ensures trustedReadable && rejectedReadable ==>
      var s := Verified(old(pki.During(Idle)).(verifications := map[0 := Verification(c, AtReject)]), 0, writable);
      pki.Holds(s) && s.verifications[0].next == Ended(verdict)
    ensures verdict == Untrusted <==> !trustedReadable || !rejectedReadable || c in old(pki.rejected)
    ensures pki.rejected == old(pki.rejected)
    ensures pki.trusted == old(pki.trusted) + if verdict == Good && writable then {c} else {}
    ensures old(Disjoint(pki.During(Idle))) ==> Disjoint(pki.During(Idle))
  {
    if !trustedReadable || !rejectedReadable {
      return Untrusted;
    }
    if c in pki.rejected {
      return Untrusted;
    }
    if c in pki.trusted {
      return Good;
    }
    if writable {
      pki.trusted := pki.trusted + {c};
    }
    return Good;
  }
}
