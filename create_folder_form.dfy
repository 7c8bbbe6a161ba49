/**
 * The "create folder" dialog: the typed name is trimmed, its whitespace
 * runs become "_", and it is refused when empty or already a folder of the
 * current directory; otherwise it is handed to the parent's submit handler.
 */
module CreateFolderForm {
  import opened Wrappers
  import opened Text

  const EmptyNameError := "El nombre de la carpeta no puede estar vacío"
  const DuplicateError := "Ya existe una carpeta con ese nombre"
  const SubmitError := "Error al crear la carpeta. Inténtalo de nuevo."

  /** `name.trim().replace(/\s+/g, "_")` */
  function Sanitize(name: string): (r: string)
    ensures NoWhitespace(r)
    ensures r == "" <==> Trim(name) == ""
    ensures NoWhitespace(name) ==> r == name
  {
    assert NoWhitespace(name) ==> Trim(name) == name by {
      if NoWhitespace(name) {
        TrimWithoutWhitespace(name);
      }
    }
    UnderscoreWhitespaceRuns(Trim(name))
  }

  /** Sanitizing a sanitized name changes nothing. */
  lemma SanitizeIdempotent(name: string)
    ensures Sanitize(Sanitize(name)) == Sanitize(name)
  {
    var once := Sanitize(name);
    TrimWithoutWhitespace(once);
  }

  /**
   * Inside a typed name, each run of whitespace between two words becomes
   * a single "_", however long the run.
   */
  lemma SanitizeCollapsesRun(a: string, w: string, b: string)
    requires a != "" && !IsWhitespace(a[0]) && !IsWhitespace(a[|a| - 1])
    requires b != "" && !IsWhitespace(b[0]) && !IsWhitespace(b[|b| - 1])
    requires w != "" && forall i :: 0 <= i < |w| ==> IsWhitespace(w[i])
    ensures Sanitize(a + w + b) == Sanitize(a) + "_" + Sanitize(b)
  {
    var s := a + w + b;
    assert s[0] == a[0] && s[|s| - 1] == b[|b| - 1];
    TrimKeepsUnpadded(a);
    TrimKeepsUnpadded(b);
    TrimKeepsUnpadded(s);
    UnderscoreCollapsesRun(a, w, b);
  }

  /** Whitespace typed before or after the name is dropped, not turned into "_". */
  lemma SanitizeDropsPadding(before: string, m: string, after: string)
    requires forall k :: 0 <= k < |before| ==> IsWhitespace(before[k])
    requires forall k :: 0 <= k < |after| ==> IsWhitespace(after[k])
    requires m != "" && !IsWhitespace(m[0]) && !IsWhitespace(m[|m| - 1])
    ensures Sanitize(before + m + after) == Sanitize(m)
  {
    TrimRemovesPadding(before, m, after);
    TrimKeepsUnpadded(m);
  }

  /** "a  b" is submitted as "a_b". */
  lemma SpacesBecomeOneUnderscore()
    ensures Sanitize("a  b") == "a_b"
  {
    assert "a  b" == "a" + "  " + "b";
    assert !IsWhitespace('a') && !IsWhitespace('b');
    assert IsWhitespace(' ');
    SanitizeCollapsesRun("a", "  ", "b");
    assert NoWhitespace("a") && NoWhitespace("b");
    assert "a" + "_" + "b" == "a_b";
  }

  datatype Validation = Rejected(error: string) | Accepted(name: string)

  /**
   * The checks made before submitting, in order: a name that trims to
   * nothing, then a sanitized name already among the existing folders.
   */
  function Validate(folderName: string, existingFolders: seq<string>): (v: Validation)
    ensures v == Rejected(EmptyNameError) <==> Trim(folderName) == ""
    ensures v == Rejected(DuplicateError) <==> Trim(folderName) != "" && Sanitize(folderName) in existingFolders
    ensures v.Accepted? <==> Trim(folderName) != "" && Sanitize(folderName) !in existingFolders
    ensures v.Accepted? ==> v.name == Sanitize(folderName) && v.name != "" && NoWhitespace(v.name)
  {
    assert EmptyNameError != DuplicateError by {
      assert EmptyNameError[0] != DuplicateError[0];
    }
    if Trim(folderName) == "" then Rejected(EmptyNameError)
    else if Sanitize(folderName) in existingFolders then Rejected(DuplicateError)
    else Accepted(Sanitize(folderName))
  }

  /**
   * A name once accepted is refused as a duplicate when typed again after
   * the folder appears, whether typed as accepted or as originally typed.
   */
  lemma AcceptedNameIsThenDuplicate(folderName: string, existingFolders: seq<string>, laterFolders: seq<string>)
    requires Validate(folderName, existingFolders).Accepted?
    requires Validate(folderName, existingFolders).name in laterFolders
    ensures Validate(folderName, laterFolders) == Rejected(DuplicateError)
    ensures Validate(Validate(folderName, existingFolders).name, laterFolders) == Rejected(DuplicateError)
  {
    var name := Validate(folderName, existingFolders).name;
    SanitizeIdempotent(folderName);
    TrimWithoutWhitespace(name);
  }

  /** `isSubmitting || !folderName.trim()`: when the submit button is disabled. */
  predicate SubmitDisabled(isSubmitting: bool, folderName: string) {
    isSubmitting || Trim(folderName) == ""
  }

  /**
   * The button and the check agree: while nothing is being submitted, the
   * button is disabled exactly when submitting would be refused as empty.
   */
  lemma SubmitButtonMatchesEmptyCheck(folderName: string, existingFolders: seq<string>)
    ensures SubmitDisabled(false, folderName) <==> Validate(folderName, existingFolders) == Rejected(EmptyNameError)
  {
  }

  /** The dialog's own state. */
  class FormState {
    var folderName: string
    var isSubmitting: bool
    var error: string

    constructor()
      ensures folderName == "" && !isSubmitting && error == ""
    {
      folderName := "";
      isSubmitting := false;
      error := "";
    }

    /** Typing in the input. */
    method SetFolderName(value: string)
      modifies this
      ensures folderName == value && isSubmitting == old(isSubmitting) && error == old(error)
    {
      folderName := value;
    }

    /**
     * Submitting the form. A refused name sets the error and changes
     * nothing else. An accepted name is handed to the parent
     * (`submitted`); `submitFails` says whether the parent's handler
     * throws. On success the name is cleared and the dialog asks to be
     * closed; on failure the name is kept and the failure shown. Either
     * way the submitting flag ends cleared.
     */
    method HandleSubmit(existingFolders: seq<string>, submitFails: bool) returns (submitted: Option<string>, closed: bool)
      modifies this
      ensures var v := Validate(old(folderName), existingFolders);
              if v.Rejected? then
                && submitted.None? && !closed
                && error == v.error && folderName == old(folderName) && isSubmitting == old(isSubmitting)
              else
                && submitted == Some(v.name) && !isSubmitting
                && (closed <==> !submitFails)
                && (submitFails ==> error == SubmitError && folderName == old(folderName))
                && (!submitFails ==> error == "" && folderName == "")
    {
      submitted := None;
      closed := false;
      if Trim(folderName) == "" {
        error := EmptyNameError;
        return;
      }
      var sanitizedName := Sanitize(folderName);
      if sanitizedName in existingFolders {
        error := DuplicateError;
        return;
      }
      error := "";
      isSubmitting := true;
      submitted := Some(sanitizedName);
      if !submitFails {
        folderName := "";
        closed := true;
      } else {
        error := SubmitError;
      }
      isSubmitting := false;
    }
  }
}
