/** The response status of the platform: a closed enumeration whose
    variants carry fixed numeric discriminants, partitioned into bands
    (generic from 0, controller from 100, consensus from 200), and the
    lookup that turns an integer back into a variant. */
module StatusCode {

  datatype Option<T> = None | Some(value: T)

  /** The variants, in declaration order. */
  datatype Status =
    | Success
    | ConvertIntError
      // controller band
    | MisbehaveNode
    | BannedNode
    | NoProvideAddress
    | NoBlock
    | NoneProposal
    | NoneBlockBody
    | NoneBlockHeader
    | EarlyStatus
    | EncodeError
    | DecodeError
    | NoCandidate
    | NoForkTree
    | DupTransaction
    | ProposalTooHigh
    | ProposalTooLow
    | ProposalCheckError
    | InternalError
    | ExpectError
      // consensus band
    | ProposlProofError

  /** First discriminant of the controller band. */
  const CONTROLLER_BASE: nat := 100
  /** First discriminant of the consensus band. */
  const CONSENSUS_BASE: nat := 200

  /** Every variant once, in the order the enumeration declares them. */
  const Variants: seq<Status> := [
    Success, ConvertIntError,
    MisbehaveNode, BannedNode, NoProvideAddress, NoBlock, NoneProposal,
    NoneBlockBody, NoneBlockHeader, EarlyStatus, EncodeError, DecodeError,
    NoCandidate, NoForkTree, DupTransaction, ProposalTooHigh, ProposalTooLow,
    ProposalCheckError, InternalError, ExpectError,
    ProposlProofError
  ]

  /** The variants that carry an explicit `= value` in the declaration;
      every other variant takes its predecessor's discriminant plus one. */
  predicate ExplicitlyNumbered(s: Status) {
    s == Success || s == MisbehaveNode || s == ProposlProofError
  }

  /** The discriminant of a variant: explicit for Success, MisbehaveNode
      and ProposlProofError, the predecessor's plus one for the others. */
  function Discriminant(s: Status): (d: nat)
    ensures d <= CONSENSUS_BASE
    ensures d == 0 <==> s == Success
    ensures d == 1 <==> s == ConvertIntError
    ensures d == CONSENSUS_BASE <==> s == ProposlProofError
  {
    match s
    case Success => 0
    case ConvertIntError => 1
    case MisbehaveNode => CONTROLLER_BASE
    case BannedNode => CONTROLLER_BASE + 1
    case NoProvideAddress => CONTROLLER_BASE + 2
    case NoBlock => CONTROLLER_BASE + 3
    case NoneProposal => CONTROLLER_BASE + 4
    case NoneBlockBody => CONTROLLER_BASE + 5
    case NoneBlockHeader => CONTROLLER_BASE + 6
    case EarlyStatus => CONTROLLER_BASE + 7
    case EncodeError => CONTROLLER_BASE + 8
    case DecodeError => CONTROLLER_BASE + 9
    case NoCandidate => CONTROLLER_BASE + 10
    case NoForkTree => CONTROLLER_BASE + 11
    case DupTransaction => CONTROLLER_BASE + 12
    case ProposalTooHigh => CONTROLLER_BASE + 13
    case ProposalTooLow => CONTROLLER_BASE + 14
    case ProposalCheckError => CONTROLLER_BASE + 15
    case InternalError => CONTROLLER_BASE + 16
    case ExpectError => CONTROLLER_BASE + 17
    case ProposlProofError => CONSENSUS_BASE
  }

  /** The numbers that some variant carries. */
  predicate IsDiscriminant(v: int) {
    exists s :: Discriminant(s) == v
  }

  /** Discriminants strictly increase along `t`. */
  predicate Ascending(t: seq<Status>) {
    forall i, j :: 0 <= i < j < |t| ==> Discriminant(t[i]) < Discriminant(t[j])
  }

  /** Each entry of `t` after the first has a larger discriminant than the one before it. */
  predicate AdjacentAscending(t: seq<Status>) {
    forall i :: 0 < i < |t| ==> Discriminant(t[i - 1]) < Discriminant(t[i])
  }

  /** The declaration-order table lists every variant, once. */
  lemma VariantsComplete(s: Status)
    ensures s in Variants
    ensures |Variants| == 21
  {
  }

  /** The numbering follows the enumeration's rule: Success is 0,
      MisbehaveNode 100, ProposlProofError 200, and every variant without
      an explicit value is its predecessor's discriminant plus one. */
  lemma NumberingRule()
    ensures Discriminant(Success) == 0
    ensures Discriminant(MisbehaveNode) == CONTROLLER_BASE
    ensures Discriminant(ProposlProofError) == CONSENSUS_BASE
    ensures forall i :: 0 < i < |Variants| && !ExplicitlyNumbered(Variants[i]) ==>
      Discriminant(Variants[i]) == Discriminant(Variants[i - 1]) + 1
  {
  }

  /** The controller variants are exactly the discriminants 100..117, in
      declaration order. */
  lemma ControllerBand(k: nat)
    requires k < 18
    ensures Discriminant(Variants[2 + k]) == CONTROLLER_BASE + k
  {
  }

  /** Adjacent order implies order between any two entries. */
  lemma {:induction false} AdjacentAscendingIsAscending(t: seq<Status>)
    requires AdjacentAscending(t)
    ensures Ascending(t)
  {
    if |t| > 1 {
      var rest := t[..|t| - 1];
      assert AdjacentAscending(rest);
      AdjacentAscendingIsAscending(rest);
      forall i, j | 0 <= i < j < |t|
        ensures Discriminant(t[i]) < Discriminant(t[j])
      {
        if j < |t| - 1 {
          assert rest[i] == t[i] && rest[j] == t[j];
        } else if i < j - 1 {
          assert rest[i] == t[i] && rest[j - 1] == t[j - 1];
        }
      }
    }
  }

  /** The declared discriminants strictly increase in declaration order. */
  lemma VariantsAscending()
    ensures Ascending(Variants)
  {
    NumberingRule();
    forall i | 0 < i < |Variants|
      ensures Discriminant(Variants[i - 1]) < Discriminant(Variants[i])
    {
    }
    AdjacentAscendingIsAscending(Variants);
  }

  /** Distinct variants have distinct discriminants. */
  lemma DiscriminantInjective(a: Status, b: Status)
    ensures Discriminant(a) == Discriminant(b) ==> a == b
  {
  }

  /** The discriminants are exactly 0, 1, 100..117 and 200. */
  lemma DiscriminantValues(v: int)
    ensures IsDiscriminant(v) <==> v == 0 || v == 1 || v == CONSENSUS_BASE || CONTROLLER_BASE <= v <= CONTROLLER_BASE + 17
  {
    if v == 0 {
      assert Discriminant(Success) == v;
    } else if v == 1 {
      assert Discriminant(ConvertIntError) == v;
    } else if v == CONSENSUS_BASE {
      assert Discriminant(ProposlProofError) == v;
    } else if CONTROLLER_BASE <= v <= CONTROLLER_BASE + 17 {
      ControllerBand(v - CONTROLLER_BASE);
      assert Discriminant(Variants[2 + v - CONTROLLER_BASE]) == v;
    }
  }

  /** The first entry of `t` whose discriminant is `v`: the comparison
      chain the derived `FromPrimitive` runs over the variants. */
  function Find(t: seq<Status>, v: int): (r: Option<Status>)
    ensures r.Some? ==> r.value in t && Discriminant(r.value) == v
    ensures r.None? ==> forall k :: 0 <= k < |t| ==> Discriminant(t[k]) != v
    ensures r.Some? ==> exists k :: (0 <= k < |t| && t[k] == r.value &&
                                     forall j :: 0 <= j < k ==> Discriminant(t[j]) != v)
  {
    if t == [] then None
    else if Discriminant(t[0]) == v then Some(t[0])
    else Find(t[1..], v)
  }

  /** Searching a table of variants for an entry's own discriminant finds
      that entry, since no other variant carries the same discriminant. */
  lemma FindOwnDiscriminant(t: seq<Status>, k: nat)
    requires k < |t|
    ensures Find(t, Discriminant(t[k])) == Some(t[k])
  {
    DiscriminantInjective(Find(t, Discriminant(t[k])).value, t[k]);
  }

  /** Converts an integer to a variant; an integer that is no variant's
      discriminant becomes ConvertIntError. Never fails. */
  function Decode(v: int): (r: Status)
    ensures Discriminant(r) == v || r == ConvertIntError
  {
    match Find(Variants, v)
    case Some(s) => s
    case None => ConvertIntError
  }

  /** Decoding a discriminant gives back the variant that carries it. */
  lemma RoundTrip(s: Status)
    ensures Decode(Discriminant(s)) == s
  {
    VariantsComplete(s);
    var k :| 0 <= k < |Variants| && Variants[k] == s;
    FindOwnDiscriminant(Variants, k);
  }

  /** A known discriminant decodes to the variant carrying it; any other
      integer decodes to ConvertIntError. */
  lemma DecodeSpec(v: int)
    ensures IsDiscriminant(v) ==> Discriminant(Decode(v)) == v
    ensures !IsDiscriminant(v) ==> Decode(v) == ConvertIntError
  {
    if IsDiscriminant(v) {
      var s :| Discriminant(s) == v;
      RoundTrip(s);
    }
  }

  /** Any integer outside 0, 1, 100..117 and 200 decodes to ConvertIntError. */
  lemma Fallback(v: int)
    requires v != 0 && v != 1 && v != CONSENSUS_BASE
    requires !(CONTROLLER_BASE <= v <= CONTROLLER_BASE + 17)
    ensures Decode(v) == ConvertIntError
  {
  }

  /** Every variant is the decoding of some integer, namely its own
      discriminant. */
  lemma DecodeSurjective(s: Status)
    ensures exists v: nat :: v <= CONSENSUS_BASE && Decode(v) == s
  {
    RoundTrip(s);
  }

  /** The rendering of a variant: its identifier, as the derived `Debug`
      prints it. */
  function Display(s: Status): (n: string)
    ensures |n| > 0 && 'A' <= n[0] <= 'Z'
  {
    match s
    case Success => "Success"
    case ConvertIntError => "ConvertIntError"
    case MisbehaveNode => "MisbehaveNode"
    case BannedNode => "BannedNode"
    case NoProvideAddress => "NoProvideAddress"
    case NoBlock => "NoBlock"
    case NoneProposal => "NoneProposal"
    case NoneBlockBody => "NoneBlockBody"
    case NoneBlockHeader => "NoneBlockHeader"
    case EarlyStatus => "EarlyStatus"
    case EncodeError => "EncodeError"
    case DecodeError => "DecodeError"
    case NoCandidate => "NoCandidate"
    case NoForkTree => "NoForkTree"
    case DupTransaction => "DupTransaction"
    case ProposalTooHigh => "ProposalTooHigh"
    case ProposalTooLow => "ProposalTooLow"
    case ProposalCheckError => "ProposalCheckError"
    case InternalError => "InternalError"
    case ExpectError => "ExpectError"
    case ProposlProofError => "ProposlProofError"
  }

  /** Different variants render differently. */
  lemma DisplayInjective(a: Status, b: Status)
    ensures Display(a) == Display(b) ==> a == b
  {
  }
}
