/** The checks the login, sign-up and upload handlers make before they call the
    backend, in the order they make them. */
module Forms {
  import opened Common
  import opened Text
  import opened Records
  import opened Youtube

  /** The reasons a form is refused. */
  datatype FormError =
    | StudentIdLength
    | PasswordTooShort
    | PasswordMismatch
    | MissingField
    | NotYoutubeUrl
    | MissingCustomThumbnail

  /** The message shown for each refusal. */
  function FormMessage(e: FormError): string {
    match e
    case StudentIdLength => "학번은 8자리여야 합니다."
    case PasswordTooShort => "비밀번호는 6자 이상이어야 합니다."
    case PasswordMismatch => "비밀번호가 일치하지 않습니다."
    case MissingField => "모든 필수 항목을 입력해주세요."
    case NotYoutubeUrl => "올바른 유튜브 URL을 입력해주세요."
    case MissingCustomThumbnail => "커스텀 썸네일을 업로드해주세요."
  }

  /** The credentials the login handler hands to `authSignIn`. */
  datatype Credentials = Credentials(studentId: string, password: string)

  /** The login form: the student id is trimmed and must be 8 characters long;
      the password goes through as typed. */
  function CheckLogin(studentIdInput: string, password: string): (r: Result<Credentials, FormError>)
    ensures r.Ok? <==> |Trim(studentIdInput)| == 8
    ensures r.Err? ==> r.error == StudentIdLength
    ensures r.Ok? ==> r.value.studentId == Trim(studentIdInput) && r.value.password == password
  {
    var studentId := Trim(studentIdInput);
    if |studentId| != 8 then Err(StudentIdLength) else Ok(Credentials(studentId, password))
  }

  /** What the sign-up handler hands to `authSignUp`. */
  datatype Registration = Registration(studentId: string, password: string, name: string)

  /** The sign-up form: trimmed student id of length 8, then a password of at
      least 6 characters, then a matching confirmation, checked in that order. */
  function CheckSignUp(studentIdInput: string, nameInput: string, password: string, confirmation: string): (r: Result<Registration, FormError>)
    ensures r.Ok? <==> |Trim(studentIdInput)| == 8 && |password| >= 6 && password == confirmation
    ensures |Trim(studentIdInput)| != 8 ==> r == Err(StudentIdLength)
    ensures |Trim(studentIdInput)| == 8 && |password| < 6 ==> r == Err(PasswordTooShort)
    ensures |Trim(studentIdInput)| == 8 && |password| >= 6 && password != confirmation ==> r == Err(PasswordMismatch)
    ensures r.Ok? ==> r.value == Registration(Trim(studentIdInput), password, Trim(nameInput))
  {
    var studentId := Trim(studentIdInput);
    var name := Trim(nameInput);
    if |studentId| != 8 then Err(StudentIdLength)
    else if |password| < 6 then Err(PasswordTooShort)
    else if password != confirmation then Err(PasswordMismatch)
    else Ok(Registration(studentId, password, name))
  }

  /** Whatever the sign-up form accepts, the login form accepts with the same
      input and hands on the student id and password that were registered; the
      registered id typed again is accepted unchanged. */
  lemma SignUpPassesLogin(studentIdInput: string, nameInput: string, password: string, confirmation: string)
    requires CheckSignUp(studentIdInput, nameInput, password, confirmation).Ok?
    ensures CheckLogin(studentIdInput, password) == Ok(Credentials(Trim(studentIdInput), password))
    ensures CheckLogin(Trim(studentIdInput), password) == CheckLogin(studentIdInput, password)
  {
    LoginOfTrimmed(studentIdInput, password);
  }

  /** Trimming the student id before the login form trims it again changes nothing. */
  lemma LoginOfTrimmed(studentIdInput: string, password: string)
    ensures CheckLogin(Trim(studentIdInput), password) == CheckLogin(studentIdInput, password)
  {
    TrimIdempotent(studentIdInput);
  }

  /** The thumbnail radio buttons: automatic, or a custom image already read
      into a data URL (absent while none has been read). */
  datatype ThumbnailChoice = Auto | Custom(dataUrl: Option<string>)

  /** The raw values of the upload form; the year is the already parsed number. */
  datatype UploadForm = UploadForm(
    title: string,
    url: string,
    genre: string,
    category: string,
    year: int,
    duration: string,
    description: string,
    thumbnail: ThumbnailChoice)

  predicate IsYoutubeUrl(url: string) {
    Contains(url, "youtube.com") || Contains(url, "youtu.be")
  }

  /** A custom thumbnail was chosen but no image has been read (`!customThumbnailDataUrl`). */
  predicate CustomThumbnailMissing(t: ThumbnailChoice) {
    t.Custom? && (t.dataUrl.None? || t.dataUrl.value == "")
  }

  predicate RequiredPresent(form: UploadForm) {
    Trim(form.title) != "" && Trim(form.url) != "" && Trim(form.duration) != "" && Trim(form.description) != ""
  }

  /** `submitUpload`: the video record handed to `addVideo`, with the signed-in
      user as director, or the first refusal. */
  function CheckUpload(form: UploadForm, user: Session): (r: Result<VideoInfo, FormError>)
    ensures r.Ok? <==> RequiredPresent(form) && IsYoutubeUrl(Trim(form.url)) && !CustomThumbnailMissing(form.thumbnail)
    ensures !RequiredPresent(form) ==> r == Err(MissingField)
    ensures RequiredPresent(form) && !IsYoutubeUrl(Trim(form.url)) ==> r == Err(NotYoutubeUrl)
    ensures RequiredPresent(form) && IsYoutubeUrl(Trim(form.url)) && CustomThumbnailMissing(form.thumbnail) ==>
      r == Err(MissingCustomThumbnail)
    ensures r.Ok? ==>
      r.value.title == Trim(form.title) && r.value.youtubeUrl == Trim(form.url) &&
      r.value.duration == Trim(form.duration) && r.value.description == Trim(form.description) &&
      r.value.genre == form.genre && r.value.category == form.category && r.value.year == form.year &&
      r.value.director == user.name && r.value.directorId == user.id
    ensures r.Ok? && form.thumbnail.Auto? ==>
      r.value.thumbnail == ThumbnailPrefix + VideoId(Some(Trim(form.url))) + ThumbnailSuffix
    ensures r.Ok? && form.thumbnail.Custom? ==> r.value.thumbnail == form.thumbnail.dataUrl.value
  {
    var title := Trim(form.title);
    var url := Trim(form.url);
    var duration := Trim(form.duration);
    var description := Trim(form.description);
    if title == "" || url == "" || duration == "" || description == "" then Err(MissingField)
    else if !Contains(url, "youtube.com") && !Contains(url, "youtu.be") then Err(NotYoutubeUrl)
    else if form.thumbnail.Custom? && (form.thumbnail.dataUrl.None? || form.thumbnail.dataUrl.value == "") then
      Err(MissingCustomThumbnail)
    else
      var thumbnail := if form.thumbnail.Custom? then form.thumbnail.dataUrl.value else AutoThumbnail(url);
      Ok(VideoInfo(title, user.name, user.id, form.year, form.genre, form.category, duration, url, thumbnail, description))
  }

  /** The form filled in again with the values of an accepted record. */
  function Refilled(v: VideoInfo, thumbnail: ThumbnailChoice): UploadForm {
    UploadForm(v.title, v.youtubeUrl, v.genre, v.category, v.year, v.duration, v.description, thumbnail)
  }

  /** The accepted text fields are already trimmed, so submitting the accepted
      values again is accepted with the same record. */
  lemma UploadResubmit(form: UploadForm, user: Session)
    requires CheckUpload(form, user).Ok?
    ensures CheckUpload(Refilled(CheckUpload(form, user).value, form.thumbnail), user) == CheckUpload(form, user)
  {
    TrimIdempotent(form.title);
    TrimIdempotent(form.url);
    TrimIdempotent(form.duration);
    TrimIdempotent(form.description);
  }
}
