/**
 * The document entity: an immutable id and creation time, a name and a content that
 * the setters overwrite in place, each setter also stamping the modification time.
 * The random UUID and the wall clock are supplied by the caller.
 */
module Documents {
  import opened JavaLang

  /** A LocalDateTime reading, as an opaque instant. */
  type Time = int

  /**
   * What `new TextDocument(name, content)` takes from its environment, in the order it
   * takes it: a random UUID, then one clock reading for createdAt and a second one for
   * modifiedAt. The two readings may differ.
   */
  datatype Creation = Creation(id: string, created: Time, modified: Time)

  class TextDocument {
    const id: string
    var name: string
    var content: string
    const createdAt: Time
    var modifiedAt: Time

    /** new TextDocument(name, content), with the UUID and the clock readings of `origin`. */
    constructor (name: string, content: string, origin: Creation)
      ensures this.name == name && this.content == content
      ensures CreatedBy(origin)
    {
      id := origin.id;
      this.name := name;
      this.content := content;
      createdAt := origin.created;
      modifiedAt := origin.modified;
    }

    /** The id and both time stamps are the ones the constructor took from `origin`. */
    predicate CreatedBy(origin: Creation)
      reads this
    {
      id == origin.id && createdAt == origin.created && modifiedAt == origin.modified
    }

    method SetName(name: string, now: Time)
      modifies this
      ensures this.name == name && modifiedAt == now
      ensures content == old(content)
    {
      this.name := name;
      modifiedAt := now;
    }

    method SetContent(content: string, now: Time)
      modifies this
      ensures this.content == content && modifiedAt == now
      ensures name == old(name)
    {
      this.content := content;
      modifiedAt := now;
    }

    /** equals(o): the same object, or another document with the same id. */
    predicate Equals(o: Ref)
    {
      match o
      case Null => false
      case Foreign => false
      case Doc(d) => d == this || d.id == id
    }

    /** hashCode(): Objects.hash(id), that is 31 * 1 + id.hashCode() in int arithmetic. */
    function HashCode(): (h: int)
      ensures -TWO_31 <= h < TWO_31
    {
      Wrap32(31 + StringHashCode(id))
    }
  }

  /** What equals may be handed: null, an object of another class, or a document. */
  datatype Ref = Null | Foreign | Doc(d: TextDocument)

  /** Equality is decided by the ids alone, whatever the names and contents. */
  lemma EqualsIffSameId(a: TextDocument, b: TextDocument)
    ensures a.Equals(Doc(b)) <==> a.id == b.id
  {
  }

  lemma EqualsIsEquivalence(a: TextDocument, b: TextDocument, c: TextDocument)
    ensures a.Equals(Doc(a))
    ensures a.Equals(Doc(b)) ==> b.Equals(Doc(a))
    ensures a.Equals(Doc(b)) && b.Equals(Doc(c)) ==> a.Equals(Doc(c))
    ensures !a.Equals(Null) && !a.Equals(Foreign)
  {
  }

  /** Equal documents have equal hash codes. */
  lemma EqualDocumentsHashAlike(a: TextDocument, b: TextDocument)
    requires a.Equals(Doc(b))
    ensures a.HashCode() == b.HashCode()
  {
  }
}
