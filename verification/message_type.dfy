/** The closed set of PBFT consensus message kinds, with their textual forms
    (src/node/message_type.rs). */
module MessageType {

  /** Kinds of PBFT messages. The first three belong to the multicast
      three-phase round; `Unset` is what an unrecognised label decodes to. */
  datatype PbftMessageType =
    | PrePrepare
    | Prepare
    | Commit
    | BlockNew
    | Checkpoint
    | ViewChange
    | Unset

  /** The two-character code used by `Display`, for compact log lines. */
  function DisplayCode(k: PbftMessageType): (code: string)
    ensures |code| == 2
  {
    match k
    case PrePrepare => "PP"
    case Prepare => "Pr"
    case Commit => "Co"
    case BlockNew => "BN"
    case Checkpoint => "CP"
    case ViewChange => "VC"
    case Unset => "Un"
  }

  /** Display codes tell every pair of kinds apart. */
  lemma DisplayCodeInjective(a: PbftMessageType, b: PbftMessageType)
    ensures DisplayCode(a) == DisplayCode(b) <==> a == b
  {
  }

  /** Whether a message of this kind is sent to every peer. */
  predicate IsMulticast(k: PbftMessageType)
  {
    match k
    case PrePrepare | Prepare | Commit => true
    case _ => false
  }

  /** The multicast kinds are exactly the three phases of a round. */
  lemma MulticastKinds(k: PbftMessageType)
    ensures IsMulticast(k) <==> k in {PrePrepare, Prepare, Commit}
    ensures !IsMulticast(k) <==> k in {BlockNew, Checkpoint, ViewChange, Unset}
  {
  }

  /** The textual form of a kind: the variant's Debug name, so `Unset`
      renders as "Unset". */
  function ToLabel(k: PbftMessageType): (name: string)
    ensures name in KnownLabels <==> k != Unset
  {
    match k
    case PrePrepare => "PrePrepare"
    case Prepare => "Prepare"
    case Commit => "Commit"
    case BlockNew => "BlockNew"
    case Checkpoint => "Checkpoint"
    case ViewChange => "ViewChange"
    case Unset => "Unset"
  }

  /** The six labels the classifier recognises; "Unset" is not one of them. */
  const KnownLabels: set<string> :=
    {"PrePrepare", "Prepare", "Commit", "BlockNew", "ViewChange", "Checkpoint"}

  /** Classifies a textual kind. Unknown text (including "Unset") falls back
      to `Unset`; the `warn!` the Rust code logs then is not modelled. */
  function FromLabel(s: string): (k: PbftMessageType)
    ensures s in KnownLabels ==> k != Unset && ToLabel(k) == s
    ensures s !in KnownLabels ==> k == Unset
  {
    match s
    case "PrePrepare" => PrePrepare
    case "Prepare" => Prepare
    case "Commit" => Commit
    case "BlockNew" => BlockNew
    case "ViewChange" => ViewChange
    case "Checkpoint" => Checkpoint
    case _ => Unset
  }

  /** Classifying a kind's Debug name gives the kind back; for `Unset` this
      goes through the fallback. */
  lemma LabelRoundTrip(k: PbftMessageType)
    ensures FromLabel(ToLabel(k)) == k
  {
  }

  /** A recognised label is the Debug name of the kind it classifies to. */
  lemma FromLabelInverse(s: string)
    requires FromLabel(s) != Unset
    ensures ToLabel(FromLabel(s)) == s
  {
  }

  /** Text that is not one of the six labels is never taken for a multicast
      kind. */
  lemma UnknownLabelNotMulticast(s: string)
    requires s !in KnownLabels
    ensures !IsMulticast(FromLabel(s))
  {
  }
}
