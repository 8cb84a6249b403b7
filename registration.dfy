/**
 * The registration screen (user.py): a live preview that freezes when a
 * photograph is taken, "Take" / "Retake", and "Save", which checks its
 * inputs in order and writes the photograph to `dataset/<name>, <pos>.jpg`.
 */
module Registration {
  import opened Wrappers
  import opened Text
  import opened Storage
  import Ams

  /** `f"{name}, {pos}.jpg"`: the enrolment file name, which is also the person's identity. */
  function FileNameFor(name: string, position: string): string
  {
    name + ", " + position + ".jpg"
  }

  /** What "Save" does: one of the three warnings, or the file it writes. */
  datatype SaveOutcome = NoImage | NoName | NoPosition | Saved(fileName: string)

  /**
   * The checks of `save` on the entry texts as typed: first that a photograph
   * was taken, then that the stripped name is not empty, then that the
   * stripped position is not empty.
   */
  function CheckSave(captured: bool, nameText: string, positionText: string): (r: SaveOutcome)
    ensures r.Saved? <==> captured && Strip(nameText) != [] && Strip(positionText) != []
    ensures !captured ==> r == NoImage
    ensures r == NoName <==> captured && Strip(nameText) == []
    ensures r == NoPosition <==> captured && Strip(nameText) != [] && Strip(positionText) == []
    ensures r.Saved? ==> r.fileName == FileNameFor(Strip(nameText), Strip(positionText))
  {
    if !captured then NoImage
    else
      var name := Strip(nameText);
      var position := Strip(positionText);
      if name == [] then NoName
      else if position == [] then NoPosition
      else Saved(FileNameFor(name, position))
  }

  /**
   * The attendance screen enrols a saved photograph under the key
   * `"<name>, <position>"`, and that key is the name the ledger records.
   */
  lemma SavedFileGalleryKey(name: string, position: string)
    ensures Ams.IsGalleryImage(FileNameFor(name, position))
    ensures Stem(FileNameFor(name, position)) == name + ", " + position
  {
    var base := name + ", " + position;
    assert FileNameFor(name, position) == base + "." + "jpg";
    JpgIsGalleryImage(base);
    assert base[|name|] == ',';
    assert HasNonDotBefore(base, |base|);
    StemOfDotted(base, "jpg");
  }

  /** Any name ending in `.jpg` passes the attendance screen's suffix test. */
  lemma JpgIsGalleryImage(base: string)
    ensures Ams.IsGalleryImage(base + "." + "jpg")
  {
    var f := base + "." + "jpg";
    forall i | 0 <= i < 3
      ensures AsciiLower(f[|f| - 3 + i]) == "jpg"[i]
    {
      assert f[|base| + 1 + i] == "jpg"[i];
    }
    assert EndsWithFolded(f, "jpg");
  }

  /** `UserRegistration`. */
  class UserRegistration {
    var currentFrame: Option<Image>
    var capturedImage: Option<Image>
    var nameText: string
    var positionText: string
    const folder: Dataset

    constructor (folder: Dataset)
      ensures currentFrame == None && capturedImage == None
      ensures nameText == [] && positionText == [] && this.folder == folder
    {
      this.folder := folder;
      currentFrame := None;
      capturedImage := None;
      nameText := [];
      positionText := [];
    }

    /** `update_video` with the camera read `frame` (nothing when `ret` is false): the preview moves only while no photograph is held. */
    method UpdateVideo(frame: Option<Image>)
      modifies this`currentFrame
      ensures currentFrame == if capturedImage.None? && frame.Some? then frame else old(currentFrame)
    {
      if capturedImage.None? {
        if frame.Some? {
          currentFrame := frame;
        }
      }
    }

    /** `capture` ("Take"): holds a copy of the current frame; without one it only warns. */
    method Capture() returns (taken: bool)
      modifies this`capturedImage
      ensures taken <==> currentFrame.Some?
      ensures capturedImage == if taken then currentFrame else old(capturedImage)
    {
      if currentFrame.Some? {
        capturedImage := currentFrame;
        return true;
      }
      return false;
    }

    /** `retake`: drops the held photograph, so the preview runs again. */
    method Retake()
      modifies this`capturedImage
      ensures capturedImage == None
    {
      capturedImage := None;
    }

    /** The operator typing into the two entry fields. */
    method EnterDetails(name: string, position: string)
      modifies this`nameText, this`positionText
      ensures nameText == name && positionText == position
    {
      nameText := name;
      positionText := position;
    }

    /**
     * `save`: a rejected save changes nothing; a successful one writes the
     * photograph under `FileNameFor` (replacing any file of that name), drops
     * the held photograph and clears both entries.
     */
    method Save() returns (outcome: SaveOutcome)
      modifies this, folder
      ensures outcome == CheckSave(old(capturedImage).Some?, old(nameText), old(positionText))
      ensures !outcome.Saved? ==> unchanged(this) && unchanged(folder)
      ensures outcome.Saved? ==>
                && folder.files == old(folder.files)[outcome.fileName := old(capturedImage).value]
                && capturedImage == None && nameText == [] && positionText == []
                && currentFrame == old(currentFrame)
    {
      var photo := capturedImage;
      outcome := CheckSave(photo.Some?, nameText, positionText);
      match outcome
      case Saved(fileName) =>
        folder.files := folder.files[fileName := photo.value];
        capturedImage := None;
        nameText := [];
        positionText := [];
      case _ =>
    }
  }
}
