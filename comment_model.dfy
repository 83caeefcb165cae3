/** The Comment schema: a required answer reference, a required author
    reference, required trimmed content of at most 1000 characters, and an
    optional parent comment (null for a top-level comment) through which
    replies form threads. */
module CommentModel {
  import opened Common
  import opened Text

  const MaxContentLength: nat := 1000

  datatype Comment = Comment(answerId: Option<Id>, authorId: Option<Id>, content: string, parentComment: Option<Id>)

  /** A record the schema accepts as stored. */
  predicate Valid(c: Comment)
  {
    && c.answerId.Some? && IsObjectId(c.answerId.value)
    && c.authorId.Some? && IsObjectId(c.authorId.value)
    && (c.parentComment.Some? ==> IsObjectId(c.parentComment.value))
    && c.content == Trim(c.content)
    && c.content != []
    && Utf16Length(c.content) <= MaxContentLength
  }

  /** What the schema makes of the given fields: content is trimmed and a
      parent left out takes the default null (None stands for both
      an omitted parent and an explicit null). */
  function Normalise(answerId: Option<Id>, authorId: Option<Id>, content: string, parentComment: Option<Id>): (c: Comment)
    ensures c.content == Trim(content)
    ensures c.answerId == answerId && c.authorId == authorId && c.parentComment == parentComment
  {
    Comment(answerId, authorId, Trim(content), parentComment)
  }

  /** `commentModel.create(...)`: the normalised record, or None when
      validation fails. */
  function Create(answerId: Option<Id>, authorId: Option<Id>, content: string, parentComment: Option<Id>): (r: Option<Comment>)
    ensures r.Some? ==> Valid(r.value) && r.value == Normalise(answerId, authorId, content, parentComment)
    ensures answerId.None? || authorId.None? ==> r.None?
  {
    var c := Normalise(answerId, authorId, content, parentComment);
    if Valid(c) then Some(c) else None
  }

  /** Exactly which inputs `create` accepts: both required references given
      as ObjectIds, a parent that is null or an ObjectId, content that is not
      all white space, and trimmed content of at most 1000 UTF-16 units. */
  lemma {:induction false} CreateAcceptsIff(answerId: Option<Id>, authorId: Option<Id>, content: string, parentComment: Option<Id>)
    ensures Create(answerId, authorId, content, parentComment).Some? <==>
      && answerId.Some? && IsObjectId(answerId.value)
      && authorId.Some? && IsObjectId(authorId.value)
      && (parentComment.Some? ==> IsObjectId(parentComment.value))
      && !AllSpace(content)
      && Utf16Length(Trim(content)) <= MaxContentLength
  {
    TrimIdempotent(content);
    TrimEmptyIff(content);
  }
}
