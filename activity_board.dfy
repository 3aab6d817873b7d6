/**
 * The activity list and the activity selector of the client, as a view
 * model (`fetchActivities`, src/static/app.js:32-86).
 *
 * The decoded `GET /activities` response is a sequence of activities in
 * the order `Object.entries` yields them. Each activity becomes a card
 * (name, description, schedule, availability, roster) and one option of
 * the selector. Reading the length of a missing participants list throws
 * before anything is appended for that activity; the handler then replaces
 * the list with a failure message, while the options already appended stay.
 */
module ActivityBoard {
  import opened Strings
  import opened NameFormat

  datatype Activity = Activity(
    name: string,
    description: string,
    schedule: string,
    maxParticipants: int,
    participants: Option<seq<string>>)

  /** The availability line of a card: `<n> spots left` or `Full`. */
  datatype Availability = SpotsLeft(count: nat) | Full

  /** One participant of a roster: the avatar text and the display name. */
  datatype RosterEntry = RosterEntry(initials: string, displayName: string)

  /** `No participants yet`, or one entry per participant. */
  datatype Roster = NoParticipantsYet | Entries(entries: seq<RosterEntry>)

  datatype Card = Card(
    name: string,
    description: string,
    schedule: string,
    availability: Availability,
    roster: Roster)

  datatype SelectOption = SelectOption(value: string, text: string)

  /**
   * What the activities list shows: the page's initial content, the cards,
   * or `Failed to load activities. Please try again later.`
   */
  datatype ListArea = Initial | Cards(cards: seq<Card>) | LoadFailed

  /** The decoded response of `GET /activities`, or a request or decoding failure. */
  datatype LoadResponse = Received(activities: seq<Activity>) | RequestFailed

  /** `<option value="">-- Select an activity --</option>`. */
  const SelectPlaceholder := SelectOption("", "-- Select an activity --")

  /** `max_participants - participants.length`, shown as a count only when positive. */
  function AvailabilityOf(maxParticipants: int, signedUp: nat): (av: Availability)
    ensures av.SpotsLeft? <==> signedUp < maxParticipants
    ensures av.SpotsLeft? ==> av.count + signedUp == maxParticipants
  {
    var spotsLeft := maxParticipants - signedUp;
    if spotsLeft > 0 then SpotsLeft(spotsLeft) else Full
  }

  /**
   * The avatar initials and the display name of one participant address:
   * a well-formed entry, with two initials exactly when the address has at
   * least two words before its `@`.
   */
  function EntryFor(p: string): (e: RosterEntry)
    ensures e.initials == GetInitials(Some(p)) && e.displayName == FormatNameFromEmail(Some(p))
    ensures WellFormedEntry(e)
    ensures e.displayName == Join(CapitalizeAll(Words(LocalPart(Some(p)))), ' ')
    ensures |e.initials| == 2 <==> |Words(LocalPart(Some(p)))| >= 2
  {
    InitialsLength(Some(p));
    FormatNameShape(Some(p));
    RosterEntry(GetInitials(Some(p)), FormatNameFromEmail(Some(p)))
  }

  /** The roster of a participant list. */
  function RosterOf(ps: seq<string>): (r: Roster)
    ensures r.NoParticipantsYet? <==> ps == []
    ensures r.Entries? ==> |r.entries| == |ps|
    ensures r.Entries? ==> forall i :: 0 <= i < |ps| ==> r.entries[i] == EntryFor(ps[i])
  {
    if |ps| > 0 then Entries(seq(|ps|, i requires 0 <= i < |ps| => EntryFor(ps[i])))
    else NoParticipantsYet
  }

  /**
   * The card of an activity whose participant list is present: its own
   * name, description and schedule, spots left exactly when fewer
   * participants than places, and one roster entry per participant.
   */
  function RenderCard(a: Activity): (c: Card)
    requires a.participants.Some?
    ensures c.name == a.name && c.description == a.description && c.schedule == a.schedule
    ensures c.availability.SpotsLeft? <==> |a.participants.value| < a.maxParticipants
    ensures c.roster.NoParticipantsYet? <==> a.participants.value == []
    ensures c.roster.Entries? ==> |c.roster.entries| == |a.participants.value|
    ensures c.availability == AvailabilityOf(a.maxParticipants, |a.participants.value|)
    ensures c.roster == RosterOf(a.participants.value)
  {
    Card(a.name, a.description, a.schedule,
         AvailabilityOf(a.maxParticipants, |a.participants.value|),
         RosterOf(a.participants.value))
  }

  /** The position of the first activity without a participant list, or `|acts|` when there is none. */
  function FirstMissingRoster(acts: seq<Activity>): (k: nat)
    ensures k <= |acts|
    ensures forall i :: 0 <= i < k ==> acts[i].participants.Some?
    ensures k < |acts| ==> acts[k].participants.None?
  {
    if acts == [] || acts[0].participants.None? then 0
    else 1 + FirstMissingRoster(acts[1..])
  }

  /** One card per activity, in order. */
  function CardsFor(acts: seq<Activity>): (cs: seq<Card>)
    requires forall i :: 0 <= i < |acts| ==> acts[i].participants.Some?
    ensures |cs| == |acts|
    ensures forall i :: 0 <= i < |acts| ==> cs[i] == RenderCard(acts[i])
  {
    seq(|acts|, i requires 0 <= i < |acts| => RenderCard(acts[i]))
  }

  /** One option per activity, in order, with the name as value and text. */
  function OptionsFor(acts: seq<Activity>): (os: seq<SelectOption>)
    ensures |os| == |acts|
    ensures forall i :: 0 <= i < |acts| ==> os[i] == SelectOption(acts[i].name, acts[i].name)
  {
    seq(|acts|, i requires 0 <= i < |acts| => SelectOption(acts[i].name, acts[i].name))
  }

  /** The activities list once a load has finished. */
  function ListAfterLoad(response: LoadResponse): (l: ListArea)
    ensures l != Initial
    ensures response.RequestFailed? ==> l == LoadFailed
    ensures l.Cards? ==> |l.cards| == |response.activities|
  {
    match response
    case RequestFailed => LoadFailed
    case Received(acts) =>
      if FirstMissingRoster(acts) < |acts| then LoadFailed else Cards(CardsFor(acts))
  }

  /** The selector's options once a load has finished, given the options before it. */
  function OptionsAfterLoad(before: seq<SelectOption>, response: LoadResponse): (os: seq<SelectOption>)
    ensures response.Received? ==> 1 <= |os| <= |response.activities| + 1 && os[0] == SelectPlaceholder
    ensures response.RequestFailed? ==> os == before
  {
    match response
    case RequestFailed => before
    case Received(acts) => [SelectPlaceholder] + OptionsFor(acts[..FirstMissingRoster(acts)])
  }

  /**
   * The list shows cards exactly when every activity has a participant list;
   * then there is one card per activity, in response order, with the
   * activity's own name, description and schedule.
   */
  lemma CardsExactlyWhenAllRostersPresent(acts: seq<Activity>)
    ensures ListAfterLoad(Received(acts)).Cards? <==>
      forall i :: 0 <= i < |acts| ==> acts[i].participants.Some?
    ensures ListAfterLoad(Received(acts)).Cards? ==>
      var cs := ListAfterLoad(Received(acts)).cards;
      |cs| == |acts| &&
      forall i :: 0 <= i < |acts| ==>
        cs[i].name == acts[i].name && cs[i].description == acts[i].description &&
        cs[i].schedule == acts[i].schedule &&
        cs[i].availability == AvailabilityOf(acts[i].maxParticipants, |acts[i].participants.value|) &&
        cs[i].roster == RosterOf(acts[i].participants.value)
  {
  }

  /**
   * After a load the selector holds the placeholder followed by one option
   * per activity in response order, up to the first activity without a
   * participant list; a failed request leaves the selector as it was.
   */
  lemma OptionsFollowResponseOrder(before: seq<SelectOption>, acts: seq<Activity>)
    ensures var os := OptionsAfterLoad(before, Received(acts));
      var k := FirstMissingRoster(acts);
      |os| == k + 1 && os[0] == SelectPlaceholder &&
      (forall i :: 0 <= i < k ==> os[i + 1].value == acts[i].name && os[i + 1].text == acts[i].name) &&
      (ListAfterLoad(Received(acts)).Cards? ==> |os| == |acts| + 1)
    ensures OptionsAfterLoad(before, RequestFailed) == before
  {
    CardsExactlyWhenAllRostersPresent(acts);
  }

  /**
   * A failure part-way through the response shows the failure message but
   * keeps the options of the activities before the failing one.
   */
  lemma {:induction false} PartialOptionsSurviveFailure(before: seq<SelectOption>, good: seq<Activity>, bad: Activity, rest: seq<Activity>)
    requires forall i :: 0 <= i < |good| ==> good[i].participants.Some?
    requires bad.participants.None?
    ensures ListAfterLoad(Received(good + [bad] + rest)) == LoadFailed
    ensures OptionsAfterLoad(before, Received(good + [bad] + rest)) == [SelectPlaceholder] + OptionsFor(good)
  {
    var acts := good + [bad] + rest;
    var k := FirstMissingRoster(acts);
    assert acts[|good|] == bad;
    assert k == |good|;
    assert acts[..k] == good;
  }

  /**
   * A roster entry as the page shows it: initials of one or two characters
   * and a display name without separators or `@`, its words joined by
   * single spaces.
   */
  predicate WellFormedEntry(e: RosterEntry)
  {
    1 <= |e.initials| <= 2 && SingleSpaced(e.displayName) &&
    forall j :: 0 <= j < |e.displayName| ==> !IsSeparator(e.displayName[j]) && e.displayName[j] != '@'
  }

  /** Every entry of a roster is well formed. */
  lemma RosterEntriesWellFormed(ps: seq<string>)
    ensures RosterOf(ps).Entries? ==>
      forall i :: 0 <= i < |ps| ==> WellFormedEntry(RosterOf(ps).entries[i])
  {
  }

  /** The activities list and the selector of the page. */
  class Board {
    var list: ListArea
    var options: seq<SelectOption>

    /** The page before any load: its own list content and options. */
    constructor (initialOptions: seq<SelectOption>)
      ensures list == Initial && options == initialOptions
    {
      list := Initial;
      options := initialOptions;
    }

    /** `fetchActivities()` once the request has settled with `response`. */
    method FetchActivities(response: LoadResponse)
      modifies this
      ensures list == ListAfterLoad(response)
      ensures options == OptionsAfterLoad(old(options), response)
    {
      match response
      case RequestFailed =>
        list := LoadFailed;
      case Received(acts) =>
        list := Cards([]);
        options := [SelectPlaceholder];
        var i := 0;
        while i < |acts|
          invariant 0 <= i <= |acts|
          invariant forall j :: 0 <= j < i ==> acts[j].participants.Some?
          invariant list == Cards(CardsFor(acts[..i]))
          invariant options == [SelectPlaceholder] + OptionsFor(acts[..i])
        {
          var a := acts[i];
          if a.participants.None? {
            // `details.participants.length` throws; the catch replaces the list
            list := LoadFailed;
            assert FirstMissingRoster(acts) == i;
            return;
          }
          list := Cards(list.cards + [RenderCard(a)]);
          options := options + [SelectOption(a.name, a.name)];
          i := i + 1;
          assert acts[..i] == acts[..i - 1] + [a];
        }
        assert acts[..i] == acts;
    }
  }
}
