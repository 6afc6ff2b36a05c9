/** `SendEmailScreen` of scr/ui_functions/send_email_screen_function.py: the
    photos to send, the address field, the title and main labels, the two
    buttons' enabled flags and the stacked widget's page. The mail itself is
    sent by code outside this model; whether it went out is a parameter. */
module EmailScreen {
  import opened Wrappers
  import opened PyText
  import opened EmailAddress

  const Placeholder := "your.email@example.com"

  /** What `label_title` or `label_main` shows: one of the texts this screen
      sets, or the text the form gave it. */
  datatype Caption =
    | FormText(text: string)
    | EmptyAddressPrompt
    | InvalidFormat
    | Sending
    | Sent
    | SendFailed
    | EnterYourEmail

  function CaptionText(c: Caption): (s: string)
    ensures c.FormText? ==> s == c.text
  {
    match c
    case FormText(text) => text
    case EmptyAddressPrompt => "Please enter an email address"
    case InvalidFormat => "Invalid email format"
    case Sending => "Sending..."
    // The source's literal: a check mark saved as UTF-8 and read back as Windows-1252.
    case Sent => "Email sent! \U{E2}\U{153}\U{201C}"
    case SendFailed => "Failed to send. Try again?"
    case EnterYourEmail => "Enter Your Email"
  }

  /** The stacked widget's page `go_to_home` shows. */
  const HomeIndex := 1

  /** Which way `send_email` goes for the text in the address field. */
  datatype Decision = EmptyAddress | InvalidAddress | Deliver(recipient: string)

  function Decide(text: string): (d: Decision)
    ensures d.EmptyAddress? <==> Strip(text) == []
    ensures d.InvalidAddress? <==> Strip(text) != [] && !Accepts(Strip(text))
    ensures d.Deliver? ==> d.recipient == Strip(text) && MatchesPattern(d.recipient)
  {
    var email := Strip(text);
    StrippedInputNeedsNoNewline(text);
    if email == [] then EmptyAddress
    else if !ValidateEmail(email) then InvalidAddress
    else
      AcceptsIsSound(email);
      Deliver(email)
  }

  /** What `send_photos_via_email` hands to the mail sender. */
  datatype SendRequest = SendRequest(recipient: string, stripPath: string, photos: seq<string>)

  class SendEmailScreen {
    var capturedPhotos: seq<string>
    var photoStripPath: Option<string>
    /** The text of `lineEdit_email`. */
    var emailText: string
    const placeholder: string
    /** What `label_title` and `label_main` show. */
    var title: Caption
    var mainLabel: Caption
    /** `pushButton_send` and `pushButton_skip` enabled. */
    var sendEnabled: bool
    var skipEnabled: bool
    /** A `QTimer.singleShot(2000, self.go_to_home)` is pending. */
    var homeScheduled: bool
    /** The parent stacked widget's current index. */
    var stackIndex: int

    /** `__init__`: no photos, no strip, an empty address field showing the
        placeholder; the labels keep the texts the form gives them. */
    constructor (titleText: string, mainText: string, index: int)
      ensures capturedPhotos == [] && photoStripPath.None?
      ensures emailText == [] && placeholder == Placeholder
      ensures title == FormText(titleText) && mainLabel == FormText(mainText)
      ensures sendEnabled && skipEnabled && !homeScheduled && stackIndex == index
    {
      capturedPhotos := [];
      photoStripPath := None;
      emailText := [];
      placeholder := Placeholder;
      title := FormText(titleText);
      mainLabel := FormText(mainText);
      sendEnabled := true;
      skipEnabled := true;
      homeScheduled := false;
      stackIndex := index;
    }

    /** `set_photos(photo_paths, strip_path=None)`: both stored as given. */
    method SetPhotos(photoPaths: seq<string>, stripPath: Option<string>)
      modifies this`capturedPhotos, this`photoStripPath
      ensures capturedPhotos == photoPaths && photoStripPath == stripPath
    {
      capturedPhotos := photoPaths;
      photoStripPath := stripPath;
    }

    /** The user typing into the address field. */
    method SetInputText(text: string)
      modifies this`emailText
      ensures emailText == text
    {
      emailText := text;
    }

    /** `send_email()`. An empty or malformed address only changes the title
        and sends nothing (`Returned(None)`). Otherwise both buttons are
        disabled and the title reads "Sending..."; with no strip path,
        `os.path.exists(None)` raises TypeError and the screen stays so;
        else the request goes out, and `delivered` is the sender's answer:
        on success the buttons stay disabled and the return home is
        scheduled, on failure both are enabled again. */
    method SendEmail(delivered: bool) returns (result: Outcome<Option<SendRequest>>)
      modifies this`title, this`sendEnabled, this`skipEnabled, this`homeScheduled
      ensures var d := Decide(emailText);
        && (d.EmptyAddress? ==>
              result == Returned(None) && title == EmptyAddressPrompt
              && sendEnabled == old(sendEnabled) && skipEnabled == old(skipEnabled)
              && homeScheduled == old(homeScheduled))
        && (d.InvalidAddress? ==>
              result == Returned(None) && title == InvalidFormat
              && sendEnabled == old(sendEnabled) && skipEnabled == old(skipEnabled)
              && homeScheduled == old(homeScheduled))
        && (d.Deliver? && photoStripPath.None? ==>
              result == Raised(TypeError) && title == Sending
              && !sendEnabled && !skipEnabled && homeScheduled == old(homeScheduled))
        && (d.Deliver? && photoStripPath.Some? ==>
              result == Returned(Some(SendRequest(d.recipient, photoStripPath.value, capturedPhotos)))
              && (delivered ==> title == Sent && !sendEnabled && !skipEnabled && homeScheduled)
              && (!delivered ==> title == SendFailed && sendEnabled && skipEnabled
                                 && homeScheduled == old(homeScheduled)))
    {
      var decision := Decide(emailText);
      if decision.Deliver? {
        result := Dispatch(decision.recipient, delivered);
      } else {
        title := if decision.EmptyAddress? then EmptyAddressPrompt else InvalidFormat;
        result := Returned(None);
      }
    }

    /** The part of `send_email` past validation: buttons off, "Sending...",
        then the call `send_photos_via_email` makes. */
    method Dispatch(recipient: string, delivered: bool) returns (result: Outcome<Option<SendRequest>>)
      modifies this`title, this`sendEnabled, this`skipEnabled, this`homeScheduled
      ensures photoStripPath.None? ==>
                result == Raised(TypeError) && title == Sending
                && !sendEnabled && !skipEnabled && homeScheduled == old(homeScheduled)
      ensures photoStripPath.Some? ==>
                && result == Returned(Some(SendRequest(recipient, photoStripPath.value, capturedPhotos)))
                && (delivered ==> title == Sent && !sendEnabled && !skipEnabled && homeScheduled)
                && (!delivered ==> title == SendFailed && sendEnabled && skipEnabled
                                   && homeScheduled == old(homeScheduled))
    {
      sendEnabled := false;
      skipEnabled := false;
      title := Sending;
      if photoStripPath.None? {
        return Raised(TypeError);
      }
      result := Returned(Some(SendRequest(recipient, photoStripPath.value, capturedPhotos)));
      if delivered {
        title := Sent;
        homeScheduled := true;
      } else {
        title := SendFailed;
        sendEnabled := true;
        skipEnabled := true;
      }
    }

    /** `go_to_home()`: the field is cleared, the main label reset, both
        buttons enabled and the home page shown, whatever came before. */
    method GoToHome()
      modifies this`emailText, this`mainLabel, this`sendEnabled, this`skipEnabled, this`stackIndex
      ensures emailText == [] && mainLabel == EnterYourEmail
      ensures sendEnabled && skipEnabled && stackIndex == HomeIndex
    {
      emailText := [];
      mainLabel := EnterYourEmail;
      sendEnabled := true;
      skipEnabled := true;
      stackIndex := HomeIndex;
    }

    /** `skip_email()`: straight home. */
    method SkipEmail()
      modifies this`emailText, this`mainLabel, this`sendEnabled, this`skipEnabled, this`stackIndex
      ensures emailText == [] && mainLabel == EnterYourEmail
      ensures sendEnabled && skipEnabled && stackIndex == HomeIndex
    {
      GoToHome();
    }

    /** The pending single-shot timer firing: home if one was scheduled. */
    method HomeTimerFires()
      modifies this`emailText, this`mainLabel, this`sendEnabled, this`skipEnabled, this`stackIndex,
               this`homeScheduled
      ensures !homeScheduled
      ensures old(homeScheduled) ==>
                emailText == [] && mainLabel == EnterYourEmail && sendEnabled && skipEnabled && stackIndex == HomeIndex
      ensures !old(homeScheduled) ==>
                emailText == old(emailText) && mainLabel == old(mainLabel) && sendEnabled == old(sendEnabled)
                && skipEnabled == old(skipEnabled) && stackIndex == old(stackIndex)
    {
      if homeScheduled {
        GoToHome();
        homeScheduled := false;
      }
    }
  }
}
