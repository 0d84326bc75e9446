/** The type codes of packfile records (Packfiles/ObjectType.cs) and their
    mapping to object kinds (PackObjectTypeExtensions). */
module PackObjectTypes {
  import opened Results
  import ObjectTypes

  /** Codes 0 to 7 as the three type bits of a record header can hold them;
      code 5 has no name in the enum, and a cast of 5 yields that unnamed value. */
  datatype PackObjectType = Unknown | Commit | Tree | Blob | Tag | Reserved | OfsDelta | RefDelta {

    function Code(): (c: nat)
      ensures c < 8
    {
      match this
      case Unknown => 0
      case Commit => 1
      case Tree => 2
      case Blob => 3
      case Tag => 4
      case Reserved => 5
      case OfsDelta => 6
      case RefDelta => 7
    }
  }

  /** The cast `(ObjectType)code` of a three-bit code. */
  function FromCode(c: nat): (t: PackObjectType)
    requires c < 8
    ensures t.Code() == c
  {
    if c == 0 then Unknown
    else if c == 1 then Commit
    else if c == 2 then Tree
    else if c == 3 then Blob
    else if c == 4 then Tag
    else if c == 5 then Reserved
    else if c == 6 then OfsDelta
    else RefDelta
  }

  lemma FromCodeOfCode(t: PackObjectType)
    ensures FromCode(t.Code()) == t
  {
  }

  /** PackObjectTypeExtensions.ToObjectType. */
  function ToObjectType(p: PackObjectType): (r: Result<ObjectTypes.ObjectType>)
    ensures r.Err? ==> r.error == UnsupportedPackType
  {
    match p
    case Commit => Ok(ObjectTypes.Commit)
    case Tree => Ok(ObjectTypes.Tree)
    case Blob => Ok(ObjectTypes.Blob)
    case Tag => Ok(ObjectTypes.Tag)
    case _ => Err(UnsupportedPackType)
  }

  /** The pack type of a kind: the preimage of each kind. */
  function OfObjectType(t: ObjectTypes.ObjectType): PackObjectType {
    match t
    case Commit => Commit
    case Tree => Tree
    case Blob => Blob
    case Tag => Tag
  }

  /** Exactly the four non-delta named codes map, each to its own kind, so the
      mapping is injective on its domain and never produces a delta kind. */
  lemma ToObjectTypeExactly(p: PackObjectType, t: ObjectTypes.ObjectType)
    ensures ToObjectType(p) == Ok(t) <==> p == OfObjectType(t)
    ensures ToObjectType(p).Ok? <==> 1 <= p.Code() <= 4
  {
  }

  lemma ToObjectTypeInjective(p: PackObjectType, q: PackObjectType)
    requires ToObjectType(p).Ok? && ToObjectType(p) == ToObjectType(q)
    ensures p == q
  {
  }
}
