/**
 * The page's session state (`state` in the script): the catalogue and the
 * terms-accepted flag, the handlers that write them, and the download gate
 * that reads the flag.
 *
 * The class `State` is the mutable object; `Snapshot`, `Step` and `Run`
 * give its value and its history as plain data, so that facts about any
 * sequence of user events can be stated as lemmas.
 */
module Session {
  import opened Wrappers
  import opened Catalog
  import opened Pipeline
  import opened Cards

  /** What `fetch` followed by `res.json()` delivered. */
  datatype Response = Parsed(data: Json) | FetchFailed

  datatype Snapshot = Snapshot(apps: seq<Record>, termsAccepted: bool)

  /** `{ apps: [], termsAccepted: false }` */
  const Initial: Snapshot := Snapshot([], false)

  /** The user events that reach the state. */
  datatype Event = AcceptTerms | LoadCatalog(response: Response) | ClickDownload

  /** What a click on a download link does. */
  datatype ClickAction = Navigate | PreventAndOpenTerms

  /** The download click handler's decision. */
  function Gate(s: Snapshot): (a: ClickAction)
    ensures a == PreventAndOpenTerms <==> !s.termsAccepted
  {
    if s.termsAccepted then Navigate else PreventAndOpenTerms
  }

  /** Whether `loadApps` reaches `renderApps`. */
  predicate LoadSucceeds(response: Response) {
    response.Parsed? && Normalise(response.data).Success?
  }

  /** The catalogue after `loadApps`. A fetch or parse failure, and a `null`
      document, throw before the assignment; a truthy `apps` that is not a
      list is stored, and every render of it fails like an empty catalogue. */
  function AppsAfterLoad(apps: seq<Record>, response: Response): (r: seq<Record>)
    ensures LoadSucceeds(response) ==> r == Normalise(response.data).value
    ensures response.FetchFailed? ==> r == apps
    ensures response.Parsed? && Normalise(response.data) == Failure(NullDocument) ==> r == apps
    ensures response.Parsed? && Normalise(response.data) == Failure(AppsNotAList) ==> r == []
  {
    match response
    case FetchFailed => apps
    case Parsed(data) =>
      match Normalise(data)
      case Success(items) => items
      case Failure(NullDocument) => apps
      case Failure(AppsNotAList) => []
  }

  /** One event: an accept sets the flag and nothing clears it; only a load
      writes the catalogue. */
  function Step(s: Snapshot, e: Event): (r: Snapshot)
    ensures r.termsAccepted <==> s.termsAccepted || e == AcceptTerms
    ensures !e.LoadCatalog? ==> r.apps == s.apps
    ensures e.LoadCatalog? ==> r.apps == AppsAfterLoad(s.apps, e.response)
  {
    match e
    case AcceptTerms => s.(termsAccepted := true)
    case LoadCatalog(response) => s.(apps := AppsAfterLoad(s.apps, response))
    case ClickDownload => s
  }

  /** The state after the events `es`, in order, starting from `s`. */
  function Run(s: Snapshot, es: seq<Event>): (r: Snapshot)
    ensures s.termsAccepted ==> r.termsAccepted
    ensures es != [] && es[|es| - 1] == AcceptTerms ==> r.termsAccepted
  {
    if es == [] then s else Step(Run(s, es[..|es| - 1]), es[|es| - 1])
  }

  /** The flag is set by an accept and by nothing else, and is never cleared. */
  lemma {:induction false} AcceptedIffAcceptEvent(s: Snapshot, es: seq<Event>)
    ensures Run(s, es).termsAccepted <==> s.termsAccepted || AcceptTerms in es
  {
    if es != [] {
      var init := es[..|es| - 1];
      AcceptedIffAcceptEvent(s, init);
      assert es == init + [es[|es| - 1]];
      assert AcceptTerms in es <==> AcceptTerms in init || es[|es| - 1] == AcceptTerms;
    }
  }

  /** Once accepted, accepted for the rest of the session. */
  lemma AcceptanceIsSticky(s: Snapshot, es: seq<Event>)
    requires s.termsAccepted
    ensures Run(s, es).termsAccepted
  {
    AcceptedIffAcceptEvent(s, es);
  }

  /** From page load, a download click is blocked and opens the terms dialog
      exactly until the terms have been accepted. */
  lemma DownloadGateFromStart(es: seq<Event>)
    ensures Gate(Run(Initial, es)) == PreventAndOpenTerms <==> AcceptTerms !in es
  {
    AcceptedIffAcceptEvent(Initial, es);
  }

  /** Only a load writes the catalogue. */
  lemma {:induction false} CatalogOnlyWrittenByLoad(s: Snapshot, es: seq<Event>)
    requires forall e | e in es :: !e.LoadCatalog?
    ensures Run(s, es).apps == s.apps
  {
    if es != [] {
      CatalogOnlyWrittenByLoad(s, es[..|es| - 1]);
      assert es[|es| - 1] in es;
    }
  }

  /** The cards `renderApps` draws, one per row, in row order. */
  function View(apps: seq<Record>, raw: string, sortValue: string): (cards: seq<Card>)
    ensures |cards| == |Rows(apps, raw, sortValue)|
  {
    var rows := Rows(apps, raw, sortValue);
    seq(|rows|, i requires 0 <= i < |rows| => CardOf(rows[i]))
  }

  /** The `forEach` of `renderApps`: one card per row, appended in order. */
  method DrawCards(rows: seq<Record>, draw: Record -> Card) returns (cards: seq<Card>)
    ensures |cards| == |rows|
    ensures forall i :: 0 <= i < |rows| ==> cards[i] == draw(rows[i])
  {
    cards := [];
    for k := 0 to |rows|
      invariant |cards| == k
      invariant forall i :: 0 <= i < k ==> cards[i] == draw(rows[i])
    {
      cards := cards + [draw(rows[k])];
    }
  }

  /** How `loadApps` ends: the grid drawn, or the error message in its place. */
  datatype LoadOutcome = Rendered(cards: seq<Card>) | ShowedLoadError

  /** The script's `state` object. */
  class State {
    var apps: seq<Record>
    var termsAccepted: bool

    function Snap(): Snapshot
      reads this
    {
      Snapshot(apps, termsAccepted)
    }

    constructor ()
      ensures Snap() == Initial
    {
      apps := [];
      termsAccepted := false;
    }

    /** The accept button's handler. */
    method Accept()
      modifies this
      ensures termsAccepted && apps == old(apps)
      ensures Snap() == Step(old(Snap()), AcceptTerms)
    {
      termsAccepted := true;
    }

    /** A download link's click handler: prevent the navigation and open the
        terms dialog exactly when the terms are not accepted. */
    method OnDownloadClick() returns (action: ClickAction)
      ensures action == Gate(Snap())
      ensures action == PreventAndOpenTerms <==> !termsAccepted
      ensures action == Navigate <==> termsAccepted
    {
      action := Gate(Snap());
    }

    /** `renderApps`: the visible rows, drawn as cards. */
    method Render(raw: string, sortValue: string) returns (cards: seq<Card>)
      ensures cards == View(apps, raw, sortValue)
    {
      cards := DrawCards(Rows(apps, raw, sortValue), CardOf);
    }

    /** `loadApps`, given what the fetch delivered and the search text and
        sort selection at that moment. */
    method Load(response: Response, raw: string, sortValue: string) returns (outcome: LoadOutcome)
      modifies this
      ensures termsAccepted == old(termsAccepted)
      ensures apps == AppsAfterLoad(old(apps), response)
      ensures Snap() == Step(old(Snap()), LoadCatalog(response))
      ensures LoadSucceeds(response) ==> outcome == Rendered(View(apps, raw, sortValue))
      ensures !LoadSucceeds(response) ==> outcome == ShowedLoadError
    {
      match response {
        case FetchFailed =>
          outcome := ShowedLoadError;
        case Parsed(data) =>
          match Normalise(data) {
            case Success(items) =>
              apps := items;
              var cards := Render(raw, sortValue);
              outcome := Rendered(cards);
            case Failure(NullDocument) =>
              outcome := ShowedLoadError;
            case Failure(AppsNotAList) =>
              apps := [];
              outcome := ShowedLoadError;
          }
      }
    }
  }
}
