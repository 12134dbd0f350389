/** WsRpcIdentifier: the application-level identity a session can be bound
    to. The abstract Java class only fixes `getId()` and an `equals` that
    compares ids, so an identifier is modelled by its id alone. */
module Identifiers {
  import opened Types

  datatype Identifier = Identifier(id: Long)

  /** The argument of `equals(Object)`: null, an identifier, or an object of
      some other class. */
  datatype JavaObject = NullRef | IdentifierRef(ident: Identifier) | OtherRef(className: string)

  /** A nullable identifier seen as an `Object` argument. */
  function AsObject(v: Option<Identifier>): JavaObject
  {
    match v
    case None => NullRef
    case Some(i) => IdentifierRef(i)
  }

  /** `self.equals(obj)`: obj is an identifier whose id is `self`'s. */
  predicate Equals(self: Identifier, obj: JavaObject)
  {
    obj.IdentifierRef? && obj.ident.id == self.id
  }

  /** Two identifiers are equal exactly when their ids are, which for this
      model is value equality of identifiers. */
  lemma EqualsIffSameId(a: Identifier, b: Identifier)
    ensures Equals(a, IdentifierRef(b)) <==> a.id == b.id
    ensures Equals(a, IdentifierRef(b)) <==> a == b
  {
  }

  /** `equals` is false for null and for an object of another class. */
  lemma EqualsRejectsNonIdentifiers(a: Identifier, obj: JavaObject)
    requires !obj.IdentifierRef?
    ensures !Equals(a, obj)
  {
  }

  lemma EqualsReflexive(a: Identifier)
    ensures Equals(a, IdentifierRef(a))
  {
  }

  lemma EqualsSymmetric(a: Identifier, b: Identifier)
    requires Equals(a, IdentifierRef(b))
    ensures Equals(b, IdentifierRef(a))
  {
  }

  lemma EqualsTransitive(a: Identifier, b: Identifier, c: Identifier)
    requires Equals(a, IdentifierRef(b)) && Equals(b, IdentifierRef(c))
    ensures Equals(a, IdentifierRef(c))
  {
  }
}
