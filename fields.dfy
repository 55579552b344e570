/** The order side enumeration and its text form (src/lib/include/fields.h). */
module SideEnum {

  /** `Unknown` is what any unrecognised side token decodes to. */
  datatype Type = Unknown | Buy | Sell

  /** The label printed for a side: "BUY", "SELL", and "<UNKNOWN>" for anything else. */
  function ToString(t: Type): (r: string)
    ensures r == "BUY" <==> t == Buy
    ensures r == "SELL" <==> t == Sell
    ensures r == "<UNKNOWN>" <==> t == Unknown
  {
    match t
    case Buy => "BUY"
    case Sell => "SELL"
    case Unknown => "<UNKNOWN>"
  }

  /** Exact, case-sensitive decoding of a side token. */
  function FromString(str: string): (r: Type)
    ensures r == Buy <==> str == "BUY"
    ensures r == Sell <==> str == "SELL"
    ensures r == Unknown <==> str != "BUY" && str != "SELL"
  {
    if str == "BUY" then Buy
    else if str == "SELL" then Sell
    else Unknown
  }

  /** The side an order trades against: Buy for anything that is not a Buy. */
  function ContraSide(t: Type): (r: Type)
    ensures r == Sell <==> t == Buy
    ensures r == Buy <==> t != Buy
  {
    if t == Buy then Sell else Buy
  }

  /** Decoding the label of a side gives the side back, Unknown included. */
  lemma {:induction false} FromStringToString(t: Type)
    ensures FromString(ToString(t)) == t
  {
  }

  /** A token that decodes to a known side is exactly that side's label. */
  lemma {:induction false} ToStringFromString(str: string)
    requires FromString(str) != Unknown
    ensures ToString(FromString(str)) == str
  {
  }

  /** On the two real sides, taking the contra side twice is the identity. */
  lemma {:induction false} ContraSideInvolution(t: Type)
    requires t == Buy || t == Sell
    ensures ContraSide(ContraSide(t)) == t
  {
  }
}
