/** The page controller: the state the handlers of `engine.js` update (the calendar
    month, the phrase index, the sign-in form mode, the signed-in user, whether the
    sign-in dialog is shown, and the loaded phrases and events), and those handlers. */
module Engine {
  import opened Options
  import opened Events
  import opened DateStrings
  import opened CalendarGrid
  import MonthCursor
  import opened Phrases
  import opened Auth

  /** What submitting the contribution form leads to. */
  datatype Outcome = SignInRequired | Submitted(kind: string, title: string, description: string)

  /** The guard in front of a contribution: without a user nothing is submitted. */
  function Contribute(user: Option<User>, kind: string, title: string, description: string): (o: Outcome)
    ensures o.SignInRequired? <==> user.None?
    ensures o.Submitted? ==> o.kind == kind && o.title == title && o.description == description
  {
    if user.None? then SignInRequired else Submitted(kind, title, description)
  }

  /** The phrases `loadPhrases` installs. */
  const SamplePhrases: seq<Phrase> := [
    Phrase(1, "Welcome to our home", "Ngiyanemukela kukhaya lethu",
           "Ngee-ya-neh-moo-keh-la koo-kha-ya leh-too", Some("audio/welcome.mp3")),
    Phrase(2, "Thank you very much", "Ngiyabonga kakhulu",
           "Ngee-ya-bon-ga ka-khoo-loo", Some("audio/thanks.mp3")),
    Phrase(3, "How are you?", "Unjani?", "Oon-ja-nee", Some("audio/howareyou.mp3"))
  ]

  /** The events `loadEvents` installs. */
  const SampleEvents: seq<Event> := [
    Event(1, "Harvest Festival", "2023-10-15", "Annual celebration of the harvest season", "Town Square"),
    Event(2, "Winter Lights", "2023-12-20", "Festival of lights marking the winter solstice",
          "Throughout town")
  ]

  class Page {
    var month: int
    var year: int
    var phraseIndex: int
    var isLoginForm: bool
    var currentUser: Option<User>
    var modalOpen: bool
    var phrases: seq<Phrase>
    var events: seq<Event>

    /** The month is 0..11, and the phrase index points into the phrase list once
        there is one (it stays 0 until then). */
    ghost predicate Valid()
      reads this
    {
      && 0 <= month < 12
      && (if |phrases| == 0 then phraseIndex == 0 else 0 <= phraseIndex < |phrases|)
    }

    function Cursor(): MonthCursor.Cursor
      reads this
    {
      MonthCursor.Cursor(month, year)
    }

    /** The initial `config` and `state`: the month shown is a parameter (the host
        reads it from the clock), nothing is loaded, the form is in sign-in mode
        and nobody is signed in. */
    constructor (month0: int, year0: int)
      requires 0 <= month0 < 12
      ensures Valid()
      ensures month == month0 && year == year0
      ensures phraseIndex == 0 && isLoginForm && currentUser == None && !modalOpen
      ensures phrases == [] && events == []
    {
      month, year := month0, year0;
      phraseIndex := 0;
      isLoginForm := true;
      currentUser := None;
      modalOpen := false;
      phrases, events := [], [];
    }

    /** `initCalendar`: the heading and the cells of the month shown. */
    method InitCalendar() returns (title: string, cells: seq<Cell>)
      requires Valid()
      ensures title == MonthTitle(year, month)
      ensures cells == Grid(year, month, events)
    {
      title := MonthTitle(year, month);
      cells := RenderMonth(year, month, events);
    }

    /** The previous-month button: step the cursor back and render again. */
    method PrevMonth() returns (title: string, cells: seq<Cell>)
      requires Valid()
      modifies this`month, this`year
      ensures Valid()
      ensures Cursor() == MonthCursor.Prev(old(Cursor()))
      ensures title == MonthTitle(year, month) && cells == Grid(year, month, events)
    {
      month := month - 1;
      if month < 0 {
        month := 11;
        year := year - 1;
      }
      title, cells := InitCalendar();
    }

    /** The next-month button: step the cursor forward and render again. */
    method NextMonth() returns (title: string, cells: seq<Cell>)
      requires Valid()
      modifies this`month, this`year
      ensures Valid()
      ensures Cursor() == MonthCursor.Next(old(Cursor()))
      ensures title == MonthTitle(year, month) && cells == Grid(year, month, events)
    {
      month := month + 1;
      if month > 11 {
        month := 0;
        year := year + 1;
      }
      title, cells := InitCalendar();
    }

    /** `loadPhrases`: install the phrase list and show the current phrase. */
    method LoadPhrases() returns (shown: Option<Phrase>)
      requires Valid() && phraseIndex < |SamplePhrases|
      modifies this`phrases
      ensures Valid()
      ensures phrases == SamplePhrases
      ensures shown == Some(phrases[phraseIndex])
    {
      phrases := SamplePhrases;
      shown := None;
      if |phrases| > 0 {
        var p := DisplayCurrentPhrase();
        shown := Some(p);
      }
    }

    /** `loadEvents`: install the event list and render the month again. */
    method LoadEvents() returns (title: string, cells: seq<Cell>)
      requires Valid()
      modifies this`events
      ensures Valid()
      ensures events == SampleEvents
      ensures title == MonthTitle(year, month) && cells == Grid(year, month, events)
    {
      events := SampleEvents;
      title, cells := InitCalendar();
    }

    /** `displayCurrentPhrase`: the phrase the index points at. */
    method DisplayCurrentPhrase() returns (p: Phrase)
      requires Valid() && |phrases| > 0
      ensures p == phrases[phraseIndex]
      ensures p in phrases
    {
      p := phrases[phraseIndex];
    }

    /** The previous-phrase button: step the index back, wrapping to the last
        phrase, and show that phrase. */
    method ShowPreviousPhrase() returns (shown: Phrase)
      requires Valid() && |phrases| > 0
      modifies this`phraseIndex
      ensures Valid()
      ensures phraseIndex == PrevIndex(old(phraseIndex), |phrases|)
      ensures shown == phrases[phraseIndex]
    {
      phraseIndex := (phraseIndex - 1 + |phrases|) % |phrases|;
      shown := DisplayCurrentPhrase();
    }

    /** The next-phrase button: step the index forward, wrapping to the first
        phrase, and show that phrase. */
    method ShowNextPhrase() returns (shown: Phrase)
      requires Valid() && |phrases| > 0
      modifies this`phraseIndex
      ensures Valid()
      ensures phraseIndex == NextIndex(old(phraseIndex), |phrases|)
      ensures shown == phrases[phraseIndex]
    {
      phraseIndex := (phraseIndex + 1) % |phrases|;
      shown := DisplayCurrentPhrase();
    }

    /** The sign-in button: sign-in mode, dialog shown. */
    method OpenLoginForm()
      requires Valid()
      modifies this`isLoginForm, this`modalOpen
      ensures Valid()
      ensures isLoginForm && modalOpen
    {
      isLoginForm := true;
      modalOpen := true;
    }

    /** The register button: registration mode, dialog shown. */
    method OpenRegisterForm()
      requires Valid()
      modifies this`isLoginForm, this`modalOpen
      ensures Valid()
      ensures !isLoginForm && modalOpen
    {
      isLoginForm := false;
      modalOpen := true;
    }

    /** `hideAuthModal`: the close button, or a click on the dialog's backdrop. */
    method HideAuthModal()
      requires Valid()
      modifies this`modalOpen
      ensures Valid()
      ensures !modalOpen
    {
      modalOpen := false;
    }

    /** The switch link: flip between sign-in and registration mode. */
    method ToggleAuthForm()
      requires Valid()
      modifies this`isLoginForm
      ensures Valid()
      ensures isLoginForm == !old(isLoginForm)
    {
      isLoginForm := !isLoginForm;
    }

    /** The (simulated) successful sign-in or registration: whatever was typed, the
        user becomes `{ email, name }` and the dialog closes. The password is not
        kept. */
    method HandleAuthSubmit(email: string, password: string)
      requires Valid()
      modifies this`currentUser, this`modalOpen
      ensures Valid()
      ensures currentUser == Some(SignedInUser(email))
      ensures !modalOpen
    {
      currentUser := Some(User(email, DisplayName(email)));
      modalOpen := false;
    }

    /** The contribution form: refused, with the sign-in dialog opened, unless a
        user is signed in; otherwise the typed fields are submitted and the dialog
        is left as it was. */
    method HandleContributionSubmit(kind: string, title: string, description: string)
      returns (outcome: Outcome)
      requires Valid()
      modifies this`modalOpen
      ensures Valid()
      ensures outcome == Contribute(currentUser, kind, title, description)
      ensures modalOpen == (currentUser.None? || old(modalOpen))
    {
      if currentUser.None? {
        modalOpen := true;
        return SignInRequired;
      }
      outcome := Submitted(kind, title, description);
    }
  }

  // ---------------------------------------------------------------------------
  // Lemmas about the sample data

  /** December 2023 starts on a Friday and has 31 days. */
  lemma December2023(year: int, month: int)
    requires year == 2023 && month == 11
    ensures FirstDay(year, month) == 5 && MonthLength(year, month) == 31
  {
  }

  /** The label of its twentieth day is the date of the Winter Lights event. */
  lemma December20Label(year: int, month: int)
    requires year == 2023 && month == 11
    ensures DateString(year, month, 20) == "2023-12-20"
  {
    assert NatToString(2023) == "2023";
  }

  /** Of the sample events, only Winter Lights is dated 2023-12-20. */
  lemma OnlyWinterLightsOnDecember20(events: seq<Event>, date: string)
    requires events == SampleEvents && date == "2023-12-20"
    ensures EventsOn(events, date) == [events[1]]
  {
    assert events[0].date[6] != date[6];
  }

  /** So the Winter Lights event sits in the twentieth day cell of December 2023,
      position 5 + 19, and in no other cell of that month. */
  lemma WinterLightsInDecember2023(year: int, month: int, events: seq<Event>)
    requires year == 2023 && month == 11 && events == SampleEvents
    ensures |Grid(year, month, events)| == 36
    ensures Grid(year, month, events)[5 + 19] == Day(20, "2023-12-20", [events[1]])
    ensures forall k ::
      (0 <= k < 36 && Grid(year, month, events)[k].Day? && events[1] in Grid(year, month, events)[k].events)
      ==> k == 5 + 19
  {
    December2023(year, month);
    December20Label(year, month);
    OnlyWinterLightsOnDecember20(events, DateString(year, month, 20));
    DayPosition(year, month, 5, 31, events, 20);
    LayoutShape(year, month, 5, 31, events);
    forall k | 0 <= k < 36 && Grid(year, month, events)[k].Day? && events[1] in Grid(year, month, events)[k].events
      ensures k == 5 + 19
    {
      EventInAtMostOneCell(year, month, 5, 31, events, events[1], k, 5 + 19);
    }
  }
}
