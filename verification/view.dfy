/** `TierListView`: the paginated leaderboard message with its Prev and Next
    buttons and its timeout, as a state machine over immutable view values. */
module View {
  import opened Base

  /** The view's `message`: not yet sent, on screen, or gone after the timeout. */
  datatype MessageState = NotSent | Shown | Gone

  datatype TierListView<T> = TierListView(pages: seq<seq<T>>, current: nat, invokerPos: Option<nat>, message: MessageState)

  /** What the view may rely on: there is a page, and the current one exists. */
  predicate Valid<T>(v: TierListView<T>)
  {
    |v.pages| > 0 && v.current < |v.pages|
  }

  /** `TierListView(pages, invoker_pos)`: page 0, nothing sent yet. */
  function New<T>(pages: seq<seq<T>>, invokerPos: Option<nat>): (v: TierListView<T>)
    ensures v.current == 0 && v.message == NotSent
    ensures v.pages == pages && v.invokerPos == invokerPos
    ensures |pages| > 0 ==> Valid(v)
  {
    TierListView(pages, 0, invokerPos, NotSent)
  }

  /** `send_initial`: the first page goes out and the view keeps the message. */
  function SendInitial<T>(v: TierListView<T>): (w: TierListView<T>)
    ensures w.message == Shown
    ensures w.pages == v.pages && w.current == v.current && w.invokerPos == v.invokerPos
  {
    v.(message := Shown)
  }

  /** The rows the embed shows: `pages[current_page]`. */
  function CurrentPage<T>(v: TierListView<T>): seq<T>
    requires Valid(v)
  {
    v.pages[v.current]
  }

  /** The footer shows "Your position is: p" when `invoker_pos` is truthy,
      and "You have no Tier position." otherwise. */
  function FooterPosition<T>(v: TierListView<T>): Option<nat>
  {
    match v.invokerPos
    case Some(p) => if p != 0 then Some(p) else None
    case None => None
  }

  /** A button press: the new view and whether the message was edited
      (`update` edits only a message the view holds). */
  datatype Press<T> = Press(view: TierListView<T>, edited: bool)

  /** `prev`: back one page unless already on the first. */
  function Prev<T>(v: TierListView<T>): Press<T>
  {
    if v.current > 0 then Press(v.(current := v.current - 1), v.message == Shown)
    else Press(v, false)
  }

  /** `next`: on one page unless already on the last. */
  function Next<T>(v: TierListView<T>): Press<T>
  {
    if v.current + 1 < |v.pages| then Press(v.(current := v.current + 1), v.message == Shown)
    else Press(v, false)
  }

  /** Both buttons keep the view valid, move by at most one page, change
      nothing but the page, and edit the message only when the page changed. */
  lemma PressKeepsValid<T>(v: TierListView<T>)
    requires Valid(v)
    ensures Valid(Prev(v).view) && Valid(Next(v).view)
    ensures Prev(v).view == v.(current := Prev(v).view.current)
    ensures Next(v).view == v.(current := Next(v).view.current)
    ensures Prev(v).edited ==> Prev(v).view.current != v.current
    ensures Next(v).edited ==> Next(v).view.current != v.current
  {
  }

  /** Prev on the first page and Next on the last page do nothing; anywhere
      else each moves exactly one page. */
  lemma PressMoves<T>(v: TierListView<T>)
    requires Valid(v)
    ensures v.current == 0 ==> Prev(v) == Press(v, false)
    ensures v.current > 0 ==> Prev(v).view.current == v.current - 1
    ensures v.current == |v.pages| - 1 ==> Next(v) == Press(v, false)
    ensures v.current < |v.pages| - 1 ==> Next(v).view.current == v.current + 1
  {
  }

  /** Next then Prev returns to the same page, and so does Prev then Next,
      except at the boundary where the first press did nothing. */
  lemma PrevUndoesNext<T>(v: TierListView<T>)
    requires Valid(v)
    ensures v.current + 1 < |v.pages| ==> Prev(Next(v).view).view == v
    ensures v.current > 0 ==> Next(Prev(v).view).view == v
  {
  }

  datatype Button = PrevButton | NextButton

  /** The view after a run of button presses. */
  function PressAll<T>(v: TierListView<T>, buttons: seq<Button>): TierListView<T>
    decreases |buttons|
  {
    if |buttons| == 0 then v
    else
      var w := match buttons[0] case PrevButton => Prev(v).view case NextButton => Next(v).view;
      PressAll(w, buttons[1..])
  }

  /** Any run of presses from a valid view keeps it valid and changes only the page. */
  lemma {:induction false} PressAllValid<T>(v: TierListView<T>, buttons: seq<Button>)
    requires Valid(v)
    ensures Valid(PressAll(v, buttons))
    ensures PressAll(v, buttons).pages == v.pages && PressAll(v, buttons).invokerPos == v.invokerPos
    ensures PressAll(v, buttons).message == v.message
    decreases |buttons|
  {
    if |buttons| > 0 {
      PressKeepsValid(v);
      var w := match buttons[0] case PrevButton => Prev(v).view case NextButton => Next(v).view;
      PressAllValid(w, buttons[1..]);
    }
  }

  /** How deleting the message ends: deleted, already gone (`NotFound`), or
      another Discord error. */
  datatype Deletion = DeletedOk | NotFound | OtherError

  /** `on_timeout`: nothing to do without a message; otherwise delete it,
      tolerating only `NotFound`; any other error escapes the handler. */
  datatype TimeoutResult<T> = Quiet(view: TierListView<T>) | Raised

  function Timeout<T>(v: TierListView<T>, outcome: Deletion): TimeoutResult<T>
  {
    if v.message != Shown then Quiet(v)
    else match outcome
      case DeletedOk => Quiet(v.(message := Gone))
      case NotFound => Quiet(v.(message := Gone))
      case OtherError => Raised
  }

  /** The timeout raises only for an unexpected deletion error on a shown
      message, leaves the pages alone, and a second timeout does nothing. */
  lemma TimeoutMeaning<T>(v: TierListView<T>, outcome: Deletion, again: Deletion)
    ensures Timeout(v, outcome).Raised? <==> v.message == Shown && outcome == OtherError
    ensures Timeout(v, outcome).Quiet? ==>
              Timeout(v, outcome).view == v.(message := if v.message == Shown then Gone else v.message)
    ensures Timeout(v, outcome).Quiet? && v.message == Shown ==>
              Timeout(Timeout(v, outcome).view, again) == Timeout(v, outcome)
  {
  }

  /** A position taken from the leaderboard (1-based, so never 0) is shown
      in the footer exactly when there is one. */
  lemma FooterShowsBoardPosition<T>(v: TierListView<T>)
    requires v.invokerPos.Some? ==> v.invokerPos.value >= 1
    ensures FooterPosition(v) == v.invokerPos
  {
  }
}
