/**
 * The comment section of the bear page: a list of comments seeded with one
 * comment, a name field, a comment field and a show/hide switch. A submit
 * either raises one of three alerts (when a field is empty or white space
 * only) and changes nothing, or appends the comment and clears both fields.
 *
 * The component's state hooks become the fields of `CommentForm`; the
 * browser's `alert` becomes the value `HandleSubmit` returns.
 */
module CommentSection {
  import opened Text

  const EmptyStringLength := 0

  const BothEmptyMessage := "Name and comment may not be empty!"
  const NameMissingMessage := "Please enter your name."
  const CommentMissingMessage := "Please enter a comment."

  datatype Comment = Comment(name: string, comment: string)

  /**
   * The comment the list starts with. Its text holds the three characters
   * U+00E2 U+20AC U+201D where an em dash was meant (the UTF-8 bytes of the
   * dash read as Windows-1252), exactly as the component declares it.
   */
  const InitialComment := Comment(
    "Bob Fossil",
    "Oh I am so glad you taught me all about the big brown angry guys in the woods. "
    + "With their sniffing little noses and their bad attitudes, they can sure be a menace "
    + "\U{00E2}\U{20AC}\U{201D}"
    + " I was thinking of putting them all in a truck and driving them outta here. I run a zoo, you know.")

  /** `isEmptyField`: nothing is left once white space is trimmed. */
  function IsEmptyField(text: string): (empty: bool)
    ensures empty <==> AllWhitespace(text)
  {
    TrimEmptyIffAllWhitespace(text);
    |Trim(text)| == EmptyStringLength
  }

  /** The alert a submit raises for these field values, or `None` when the comment is accepted. */
  function SubmitAlert(name: string, comment: string): (alert: Option<string>)
    ensures alert.None? <==> !AllWhitespace(name) && !AllWhitespace(comment)
    ensures alert == Some(BothEmptyMessage) <==> AllWhitespace(name) && AllWhitespace(comment)
    ensures alert == Some(NameMissingMessage) <==> AllWhitespace(name) && !AllWhitespace(comment)
    ensures alert == Some(CommentMissingMessage) <==> !AllWhitespace(name) && AllWhitespace(comment)
  {
    if IsEmptyField(name) && IsEmptyField(comment) then Some(BothEmptyMessage)
    else if IsEmptyField(name) then Some(NameMissingMessage)
    else if IsEmptyField(comment) then Some(CommentMissingMessage)
    else None
  }

  /** A comment the form may post: both parts hold something besides white space. */
  predicate Postable(c: Comment) {
    !AllWhitespace(c.name) && !AllWhitespace(c.comment)
  }

  class CommentForm {
    var comments: seq<Comment>
    var name: string
    var comment: string
    var showFormAndComments: bool

    /** The list starts with the seeded comment, and every comment posted since is postable. */
    predicate Valid()
      reads this
    {
      && |comments| >= 1
      && comments[0] == InitialComment
      && forall i :: 1 <= i < |comments| ==> Postable(comments[i])
    }

    /** The initial state: the seeded comment, empty fields, the list shown. */
    constructor ()
      ensures Valid()
      ensures comments == [InitialComment] && name == "" && comment == "" && showFormAndComments
    {
      comments := [InitialComment];
      name := "";
      comment := "";
      showFormAndComments := true;
    }

    /**
     * The name field's change handler. The form, and with it both fields and
     * the submit button, is only on the page while it is shown.
     */
    method EditName(value: string)
      requires Valid() && showFormAndComments
      modifies this
      ensures Valid()
      ensures name == value
      ensures comments == old(comments) && comment == old(comment) && showFormAndComments == old(showFormAndComments)
    {
      name := value;
    }

    /** The comment field's change handler. */
    method EditComment(value: string)
      requires Valid() && showFormAndComments
      modifies this
      ensures Valid()
      ensures comment == value
      ensures comments == old(comments) && name == old(name) && showFormAndComments == old(showFormAndComments)
    {
      comment := value;
    }

    /**
     * `handleSubmit`: an alert leaves every field as it was; otherwise the
     * comment is appended with the fields' values and both fields are cleared.
     */
    method HandleSubmit() returns (alert: Option<string>)
      requires Valid() && showFormAndComments
      modifies this
      ensures Valid()
      ensures alert == SubmitAlert(old(name), old(comment))
      ensures alert.Some? ==> comments == old(comments) && name == old(name) && comment == old(comment)
      ensures alert.None? ==> comments == old(comments) + [Comment(old(name), old(comment))] && name == "" && comment == ""
      ensures showFormAndComments == old(showFormAndComments)
    {
      alert := SubmitAlert(name, comment);
      if alert.Some? {
        return;
      }
      comments := comments + [Comment(name, comment)];
      name := "";
      comment := "";
    }

    /** `toggleFormAndComments`: flips visibility and nothing else. */
    method ToggleFormAndComments()
      requires Valid()
      modifies this
      ensures Valid()
      ensures showFormAndComments == !old(showFormAndComments)
      ensures comments == old(comments) && name == old(name) && comment == old(comment)
    {
      showFormAndComments := !showFormAndComments;
    }
  }

  /** Submitting the untouched form raises the both-empty alert and posts nothing. */
  method SubmitUntouched() returns (alert: Option<string>, count: nat)
    ensures alert == Some(BothEmptyMessage) && count == 1
  {
    var form := new CommentForm();
    alert := form.HandleSubmit();
    count := |form.comments|;
  }

  /** Filling in both fields and submitting adds a second comment holding them, and clears the form. */
  method SubmitFilledIn(name: string, comment: string) returns (alert: Option<string>, comments: seq<Comment>, cleared: bool)
    requires !AllWhitespace(name) && !AllWhitespace(comment)
    ensures alert.None? && cleared
    ensures comments == [InitialComment, Comment(name, comment)]
  {
    var form := new CommentForm();
    form.EditName(name);
    form.EditComment(comment);
    alert := form.HandleSubmit();
    comments := form.comments;
    cleared := form.name == "" && form.comment == "";
  }

  /** A field left blank raises its own alert, and the other field keeps what was typed. */
  method SubmitMissingName(comment: string) returns (alert: Option<string>, kept: string, count: nat)
    requires !AllWhitespace(comment)
    ensures alert == Some(NameMissingMessage) && kept == comment && count == 1
  {
    var form := new CommentForm();
    form.EditName(" ");
    form.EditComment(comment);
    alert := form.HandleSubmit();
    kept := form.comment;
    count := |form.comments|;
  }

  /** Hiding and showing again restores the form exactly. */
  method ToggleTwice(name: string, comment: string) returns (same: bool, shown: bool)
    ensures same && shown
  {
    var form := new CommentForm();
    form.EditName(name);
    form.EditComment(comment);
    var before := form.comments;
    form.ToggleFormAndComments();
    form.ToggleFormAndComments();
    same := form.comments == before && form.name == name && form.comment == comment;
    shown := form.showFormAndComments;
  }
}
