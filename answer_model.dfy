/** The Answer schema: an optional question reference, an optional author
    reference, required trimmed content of at most 2000 characters and a
    vote tally that defaults to 0. Creating or saving a record that breaks
    the schema raises a validation error. */
module AnswerModel {
  import opened Common
  import opened Text

  const MaxContentLength: nat := 2000

  datatype Answer = Answer(questionId: Option<Id>, authorId: Option<Id>, content: string, vote: int)

  /** A record the schema accepts as stored: references that are ObjectIds,
      content already trimmed, present, and within the length limit. */
  predicate Valid(a: Answer)
  {
    && (a.questionId.Some? ==> IsObjectId(a.questionId.value))
    && (a.authorId.Some? ==> IsObjectId(a.authorId.value))
    && a.content == Trim(a.content)
    && a.content != []
    && Utf16Length(a.content) <= MaxContentLength
  }

  /** What the schema makes of the fields given to `create`: the content
      setter trims, and `vote` takes its default. */
  function Normalise(questionId: Option<Id>, authorId: Option<Id>, content: string): (a: Answer)
    ensures a.vote == 0
    ensures a.content == Trim(content)
    ensures a.questionId == questionId && a.authorId == authorId
  {
    Answer(questionId, authorId, Trim(content), 0)
  }

  /** `answerModel.create(...)`: the normalised record, or None when
      validation fails. */
  function Create(questionId: Option<Id>, authorId: Option<Id>, content: string): (r: Option<Answer>)
    ensures r.Some? ==> Valid(r.value) && r.value == Normalise(questionId, authorId, content)
    ensures r.None? ==> !Valid(Normalise(questionId, authorId, content))
  {
    var a := Normalise(questionId, authorId, content);
    if Valid(a) then Some(a) else None
  }

  /** `save()` on a loaded record: the whole record is validated again and
      stored only if it passes. */
  function Save(a: Answer): (r: Option<Answer>)
    ensures r.Some? <==> Valid(a)
    ensures r.Some? ==> r.value == a
  {
    if Valid(a) then Some(a) else None
  }

  /** Assigning `content` on a loaded record and saving it: the setter trims
      the new value; question, author and vote are kept. */
  function SetContent(a: Answer, content: string): (r: Option<Answer>)
    ensures r.Some? ==> Valid(r.value) && r.value.content == Trim(content)
    ensures r.Some? ==> r.value.vote == a.vote && r.value.authorId == a.authorId && r.value.questionId == a.questionId
    ensures r.None? ==> !Valid(a.(content := Trim(content)))
  {
    Save(a.(content := Trim(content)))
  }

  /** Exactly which inputs `create` accepts: ObjectId references (either may
      be left out), content that is not all white space, and trimmed content
      of at most 2000 UTF-16 units. */
  lemma {:induction false} CreateAcceptsIff(questionId: Option<Id>, authorId: Option<Id>, content: string)
    ensures Create(questionId, authorId, content).Some? <==>
      && (questionId.Some? ==> IsObjectId(questionId.value))
      && (authorId.Some? ==> IsObjectId(authorId.value))
      && !AllSpace(content)
      && Utf16Length(Trim(content)) <= MaxContentLength
  {
    TrimIdempotent(content);
    TrimEmptyIff(content);
  }

  /** Neither reference is required: a record with no question and no author
      is accepted as long as its content is. */
  lemma ReferencesOptional(content: string)
    requires !AllSpace(content) && Utf16Length(Trim(content)) <= MaxContentLength
    ensures Create(None, None, content).Some?
  {
    CreateAcceptsIff(None, None, content);
  }

  /** Content made only of white space is truthy for the controllers but
      trims to the empty string, which `required` rejects. */
  lemma WhitespaceContentRejected(questionId: Option<Id>, authorId: Option<Id>, content: string)
    requires AllSpace(content)
    ensures Create(questionId, authorId, content).None?
    ensures forall a: Answer :: SetContent(a, content).None?
  {
    TrimEmptyIff(content);
  }

  /** Content longer than 2000 units after trimming is rejected. */
  lemma TooLongRejected(questionId: Option<Id>, authorId: Option<Id>, content: string)
    requires Utf16Length(Trim(content)) > MaxContentLength
    ensures Create(questionId, authorId, content).None?
    ensures forall a: Answer :: SetContent(a, content).None?
  {
  }

  /** Normalising is idempotent: feeding a normalised record's content back
      through the schema yields the same record. */
  lemma NormaliseIdempotent(questionId: Option<Id>, authorId: Option<Id>, content: string)
    ensures var a := Normalise(questionId, authorId, content);
      Normalise(questionId, authorId, a.content) == a && SetContent(a, a.content) == Create(questionId, authorId, content)
  {
    TrimIdempotent(content);
  }
}
