/** The object kinds of the loose-object store and the mapping from the
    type token of a header back to a kind (ObjectTypeExtensions). */
module ObjectTypes {
  import opened Results
  import opened Bytes

  datatype ObjectType = Commit | Tree | Blob | Tag

  /** Type.ToString().ToLower(), the token written into a header. */
  function TypeName(t: ObjectType): string {
    match t
    case Commit => "commit"
    case Tree => "tree"
    case Blob => "blob"
    case Tag => "tag"
  }

  /** ObjectTypeExtensions.ToObjectType: a case-sensitive match on the four
      lower-case names; anything else is an error. */
  function ToObjectType(s: string): (r: Result<ObjectType>)
    ensures r.Err? ==> r.error == UnknownTypeName(s)
  {
    match s
    case "commit" => Ok(Commit)
    case "tree" => Ok(Tree)
    case "blob" => Ok(Blob)
    case "tag" => Ok(Tag)
    case _ => Err(UnknownTypeName(s))
  }

  /** A string is accepted exactly when it is the name of a kind, and then it
      maps to that kind: the mapping inverts TypeName and is injective. */
  lemma ToObjectTypeInvertsTypeName(s: string, t: ObjectType)
    ensures ToObjectType(s) == Ok(t) <==> s == TypeName(t)
  {
  }

  lemma ToObjectTypeFails(s: string)
    requires s !in {"commit", "tree", "blob", "tag"}
    ensures ToObjectType(s) == Err(UnknownTypeName(s))
  {
  }

  /** A type name is ASCII and has no space or NUL in it, so it cannot hide
      either separator of a header. */
  lemma TypeNameIsPlain(t: ObjectType)
    ensures IsAscii(TypeName(t)) && ' ' !in TypeName(t) && '\0' !in TypeName(t)
    ensures |TypeName(t)| >= 3
  {
  }
}
