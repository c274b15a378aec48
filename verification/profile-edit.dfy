/**
 * The profile editor (components/profile-edit-modal.tsx): its fields, the picture cropper,
 * the delete confirmation, and the save pipeline that uploads a new picture and hands the
 * edits to the shell.
 */
module ProfileEdit {
  import opened Wrappers
  import opened Calendar
  import opened IsoDate
  import opened Entities
  import opened Birthdays
  import opened AppMain

  /** A cropped picture, as bytes. */
  datatype Blob = Blob(bytes: seq<bv8>)

  datatype Modal = Modal(
    name: string,
    birthday: string,
    role: string,
    avatarPreview: string,
    croppedBlob: Option<Blob>,
    saving: bool,
    showDeleteConfirm: bool,
    showCropper: bool,
    rawImage: Option<string>)

  /**
   * The initial fields: the person's name and picture, the birthday as the date part of its
   * ISO string, and the role or "". `toISOString` throws on an invalid date, hence the requirement.
   */
  function Open(p: Person): (m: Modal)
    requires ValidTime(p.birthday)
    ensures m.name == p.name && m.avatarPreview == p.avatar
    ensures m.birthday == IsoDatePart(p.birthday)
    ensures m.role == (if p.role.Some? then p.role.value else "")
    ensures m.croppedBlob.None? && !m.saving && !m.showDeleteConfirm && !m.showCropper && m.rawImage.None?
  {
    Modal(p.name, IsoDatePart(p.birthday), p.role.GetOr(""), p.avatar, None, false, false, false, None)
  }

  /** A chosen file, read as a data URL, opens the cropper; no file changes nothing. */
  function FileSelected(m: Modal, dataUrl: Option<string>): (m': Modal)
    ensures dataUrl.None? ==> m' == m
    ensures dataUrl.Some? ==> m' == m.(rawImage := dataUrl, showCropper := true)
  {
    if dataUrl.Some? then m.(rawImage := dataUrl, showCropper := true) else m
  }

  /** Keeps the crop and previews it; closes the cropper and drops the raw image. */
  function CropComplete(m: Modal, blob: Blob, objectUrl: string): (m': Modal)
    ensures m'.croppedBlob == Some(blob) && m'.avatarPreview == objectUrl
    ensures !m'.showCropper && m'.rawImage.None?
    ensures m' == m.(croppedBlob := Some(blob), avatarPreview := objectUrl, showCropper := false, rawImage := None)
  {
    m.(croppedBlob := Some(blob), avatarPreview := objectUrl, showCropper := false, rawImage := None)
  }

  /** Closes the cropper and drops the raw image; an earlier crop is kept. */
  function CropCancel(m: Modal): (m': Modal)
    ensures !m'.showCropper && m'.rawImage.None?
    ensures m'.croppedBlob == m.croppedBlob && m'.avatarPreview == m.avatarPreview
    ensures m' == m.(showCropper := false, rawImage := None)
  {
    m.(showCropper := false, rawImage := None)
  }

  function AskDelete(m: Modal): (m': Modal)
    ensures m'.showDeleteConfirm && m' == m.(showDeleteConfirm := true)
  {
    m.(showDeleteConfirm := true)
  }

  function CancelDelete(m: Modal): (m': Modal)
    ensures !m'.showDeleteConfirm && m' == m.(showDeleteConfirm := false)
  {
    m.(showDeleteConfirm := false)
  }

  datatype ModalScreen = Cropper(image: string) | DeleteConfirm | EditForm(saveDisabled: bool)

  /** Cropper first (when shown and there is an image), then the confirmation, then the form. */
  function Render(m: Modal): (r: ModalScreen)
    ensures r.Cropper? <==> m.showCropper && m.rawImage.Some?
    ensures r.Cropper? ==> r.image == m.rawImage.value
    ensures r.DeleteConfirm? <==> !(m.showCropper && m.rawImage.Some?) && m.showDeleteConfirm
    ensures r.EditForm? ==> r.saveDisabled == m.saving
  {
    if m.showCropper && m.rawImage.Some? then Cropper(m.rawImage.value)
    else if m.showDeleteConfirm then DeleteConfirm
    else EditForm(m.saving)
  }

  /** A chosen file is shown in the cropper at once; no file leaves the screen as it was. */
  lemma FileSelectedOpensCropper(m: Modal, dataUrl: string)
    ensures Render(FileSelected(m, Some(dataUrl))) == Cropper(dataUrl)
    ensures Render(FileSelected(m, None)) == Render(m)
  {
  }

  /**
   * Out of the cropper, the delete button shows the confirmation and cancelling it returns to
   * the form; cancelling a confirmation just asked for restores the modal.
   */
  lemma DeleteConfirmFlow(m: Modal)
    requires !(m.showCropper && m.rawImage.Some?)
    ensures Render(AskDelete(m)) == DeleteConfirm
    ensures Render(CancelDelete(m)) == EditForm(m.saving)
    ensures !m.showDeleteConfirm ==> CancelDelete(AskDelete(m)) == m
  {
  }

  /** A crop, finished or abandoned, always returns to the screen below the cropper. */
  lemma CropperAlwaysCloses(m: Modal, blob: Blob, objectUrl: string)
    ensures !Render(CropComplete(m, blob, objectUrl)).Cropper?
    ensures !Render(CropCancel(m)).Cropper?
  {
  }

  /** The storage key of an upload: `${id}-${Date.now()}.jpg`. */
  function UploadKey(profileId: Id, clock: nat): (k: string)
    ensures |k| == |profileId| + 1 + |NatText(clock)| + 4
    ensures k[..|profileId| + 1] == profileId + "-"
    ensures k[|k| - 4..] == ".jpg"
    ensures k[|profileId| + 1..|k| - 4] == NatText(clock)
  {
    profileId + "-" + NatText(clock) + ".jpg"
  }

  /** Uploads at different milliseconds use different keys. */
  lemma UploadKeysDiffer(profileId: Id, c1: nat, c2: nat)
    requires c1 != c2
    ensures UploadKey(profileId, c1) != UploadKey(profileId, c2)
  {
    if UploadKey(profileId, c1) == UploadKey(profileId, c2) {
      var k1, k2 := UploadKey(profileId, c1), UploadKey(profileId, c2);
      var n1, n2 := NatText(c1), NatText(c2);
      NatTextInjective(c1, c2);
    }
  }

  datatype Alert = UploadFailedAlert | SaveFailedAlert

  datatype SaveOutcome = SaveOutcome(
    uploadKey: Option<string>,       // the upload sent, if any
    updates: ProfileUpdates,         // what `onSave` received
    alerts: seq<Alert>,
    closed: bool,
    modal: Modal)

  /**
   * `handleSave`. The storage answer is `uploadFailed`, `publicUrl` maps a key to its public
   * address, `saveThrows` is whether `onSave` rejected, and `clock` is `Date.now()`.
   */
  function HandleSave(m: Modal, profileId: Id, clock: nat, uploadFailed: bool, publicUrl: string -> string, saveThrows: bool): (r: SaveOutcome)
    ensures m.croppedBlob.None? ==> r.uploadKey.None? && r.updates.avatarUrl.None?
    ensures m.croppedBlob.Some? ==> r.uploadKey == Some(UploadKey(profileId, clock))
    ensures m.croppedBlob.Some? && uploadFailed ==> r.updates.avatarUrl.None? && UploadFailedAlert in r.alerts
    ensures m.croppedBlob.Some? && !uploadFailed ==> r.updates.avatarUrl == Some(publicUrl(UploadKey(profileId, clock)))
    ensures r.updates.name == m.name && r.updates.birthday == m.birthday && r.updates.role == m.role
    ensures r.closed <==> !saveThrows
    ensures SaveFailedAlert in r.alerts <==> saveThrows
    ensures r.modal == m.(saving := false)
  {
    var key := if m.croppedBlob.Some? then Some(UploadKey(profileId, clock)) else None;
    var uploadAlert := if m.croppedBlob.Some? && uploadFailed then [UploadFailedAlert] else [];
    var avatar := if m.croppedBlob.Some? && !uploadFailed then Some(publicUrl(UploadKey(profileId, clock))) else None;
    var updates := ProfileUpdates(m.name, m.birthday, m.role, avatar);
    var saveAlert := if saveThrows then [SaveFailedAlert] else [];
    SaveOutcome(key, updates, uploadAlert + saveAlert, !saveThrows, m.(saving := false))
  }

  /**
   * A failed upload still saves the other fields, and the shell then keeps the picture the
   * profile had.
   */
  lemma FailedUploadKeepsAvatar(m: Modal, prev: Profile, clock: nat, publicUrl: string -> string, saveThrows: bool)
    requires m.croppedBlob.Some?
    ensures var u := HandleSave(m, prev.id, clock, true, publicUrl, saveThrows).updates;
      MergeProfile(prev, u).avatarUrl == prev.avatarUrl && MergeProfile(prev, u).name == m.name
  {
  }

  /**
   * Opening the editor on a profile and saving without edits writes back the birthday text
   * the profile was stored with.
   */
  lemma UneditedSaveKeepsBirthday(p: Person, stored: string, clock: nat, uploadFailed: bool, publicUrl: string -> string, saveThrows: bool)
    requires ParseIsoDate(stored) == Some(p.birthday)
    ensures ValidTime(p.birthday)
    ensures HandleSave(Open(p), p.id, clock, uploadFailed, publicUrl, saveThrows).updates.birthday == stored
  {
    ParseThenFormat(stored);
  }
}
