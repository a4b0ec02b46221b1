/**
 * frontend/src/components/CourseCard.tsx: the actions on a note card, gated on sign-in, and
 * the local like/dislike toggles. A gated action asked for while signed out is remembered by
 * name in a single slot and replayed after a successful sign-in.
 *
 * Downloading and editing only have effects outside the component (a download request, a log
 * line); the model records every action that runs, in order, in `ran`.
 */
module CourseCard {
  import opened Wrappers

  datatype Action = Download | Like | Dislike | Edit

  /** The name `requireAuth` stores for each action. */
  function Name(a: Action): (r: string)
    ensures ActionNamed(r) == Some(a)
  {
    match a
    case Download => "download"
    case Like => "like"
    case Dislike => "dislike"
    case Edit => "edit"
  }

  /** The action `handleSignInSuccess` replays for a stored name; any other name runs nothing. */
  function ActionNamed(name: string): (r: Option<Action>)
    ensures r.None? <==> name !in {"download", "like", "dislike", "edit"}
  {
    if name == "download" then Some(Download)
    else if name == "like" then Some(Like)
    else if name == "dislike" then Some(Dislike)
    else if name == "edit" then Some(Edit)
    else None
  }

  /** A name is looked up as an action exactly when it is that action's stored name. */
  lemma NameRoundTrip(name: string, a: Action)
    ensures ActionNamed(name) == Some(a) <==> Name(a) == name
  {
  }

  // ---------------------------------------------------------------------------------------
  // Likes and dislikes

  datatype Votes = Votes(isLiked: bool, isDisliked: bool, likeCount: int)

  const InitialVotes := Votes(false, false, 0)

  /** The flags never both hold, and the count is 1 exactly when liked. */
  predicate Consistent(v: Votes) {
    !(v.isLiked && v.isDisliked) && v.likeCount == (if v.isLiked then 1 else 0)
  }

  /** `handleLikeAction`: a like is withdrawn, or given (clearing a dislike). */
  function LikeStep(v: Votes): (r: Votes)
    ensures r.isLiked == !v.isLiked
    ensures r.isLiked ==> !r.isDisliked
    ensures v.isLiked ==> r.isDisliked == v.isDisliked
    ensures r.likeCount == v.likeCount + (if r.isLiked then 1 else -1)
    ensures Consistent(v) ==> Consistent(r)
  {
    if v.isLiked then v.(isLiked := false, likeCount := v.likeCount - 1)
    else v.(isLiked := true, isDisliked := false, likeCount := v.likeCount + 1)
  }

  /** `handleDislikeAction`: a dislike is withdrawn, or given (withdrawing a like). */
  function DislikeStep(v: Votes): (r: Votes)
    ensures r.isDisliked == !v.isDisliked
    ensures r.isDisliked ==> !r.isLiked
    ensures v.isDisliked ==> r.isLiked == v.isLiked
    ensures r.likeCount <= v.likeCount
    ensures r.likeCount == v.likeCount - (if r.isDisliked && v.isLiked then 1 else 0)
    ensures Consistent(v) ==> Consistent(r)
  {
    if v.isDisliked then v.(isDisliked := false)
    else if v.isLiked then v.(isDisliked := true, isLiked := false, likeCount := v.likeCount - 1)
    else v.(isDisliked := true)
  }

  /** Liking twice restores the votes exactly when they were not disliked (a like clears a
      dislike, and the second like does not bring it back). */
  lemma LikeTwice(v: Votes)
    ensures LikeStep(LikeStep(v)) == v <==> !v.isDisliked
  {
  }

  /** The votes after any sequence of likes and dislikes (true for a like, false for a dislike). */
  function VotesAfter(v: Votes, likes: seq<bool>): Votes
    decreases |likes|
  {
    if likes == [] then v
    else VotesAfter(if likes[0] then LikeStep(v) else DislikeStep(v), likes[1..])
  }

  /** Every state reachable from the initial one is consistent. */
  lemma {:induction false} ReachableConsistent(v: Votes, likes: seq<bool>)
    requires Consistent(v)
    ensures Consistent(VotesAfter(v, likes))
    decreases |likes|
  {
    if likes != [] {
      ReachableConsistent(if likes[0] then LikeStep(v) else DislikeStep(v), likes[1..]);
    }
  }

  lemma InitialConsistent(likes: seq<bool>)
    ensures Consistent(VotesAfter(InitialVotes, likes))
  {
    ReachableConsistent(InitialVotes, likes);
  }

  // ---------------------------------------------------------------------------------------
  // Gating on sign-in

  datatype Card = Card(showSignInModal: bool, pendingAction: Option<string>, votes: Votes, ran: seq<Action>)

  const InitialCard := Card(false, None, InitialVotes, [])

  /** Running an action: likes and dislikes change the votes; every action is recorded. */
  function RunStep(c: Card, a: Action): (r: Card)
    ensures r.ran == c.ran + [a]
    ensures r.showSignInModal == c.showSignInModal && r.pendingAction == c.pendingAction
    ensures a in {Download, Edit} ==> r.votes == c.votes
    ensures a == Like ==> r.votes == LikeStep(c.votes)
    ensures a == Dislike ==> r.votes == DislikeStep(c.votes)
  {
    var votes := match a
      case Like => LikeStep(c.votes)
      case Dislike => DislikeStep(c.votes)
      case _ => c.votes;
    c.(votes := votes, ran := c.ran + [a])
  }

  /** `requireAuth(Name(a), action)`: signed out, the action's name is stored and the sign-in
      modal opened; signed in, the action runs at once. */
  function RequireAuthStep(c: Card, isAuthenticated: bool, a: Action): (r: Card)
    ensures !isAuthenticated ==>
      r.showSignInModal && r.pendingAction == Some(Name(a)) && r.votes == c.votes && r.ran == c.ran
    ensures isAuthenticated ==> r == RunStep(c, a)
  {
    if !isAuthenticated then c.(pendingAction := Some(Name(a)), showSignInModal := true)
    else RunStep(c, a)
  }

  /** `handleSignInSuccess`: close the modal, replay the action the stored name denotes (if
      any), and clear the slot. */
  function SignInSuccessStep(c: Card): (r: Card)
    ensures !r.showSignInModal && r.pendingAction.None?
    ensures var replay := if c.pendingAction.Some? then ActionNamed(c.pendingAction.value) else None;
      r.ran == c.ran + (if replay.Some? then [replay.value] else []) &&
      (replay.None? ==> r.votes == c.votes) &&
      (replay.Some? ==> r.votes == RunStep(c, replay.value).votes)
  {
    var closed := c.(showSignInModal := false);
    var replayed := if c.pendingAction.Some? && ActionNamed(c.pendingAction.value).Some?
      then RunStep(closed, ActionNamed(c.pendingAction.value).value)
      else closed;
    replayed.(pendingAction := None)
  }

  /** The cancel button: close the modal and clear the slot. */
  function CancelStep(c: Card): (r: Card)
    ensures !r.showSignInModal && r.pendingAction.None? && r.votes == c.votes && r.ran == c.ran
  {
    c.(showSignInModal := false, pendingAction := None)
  }

  /** Signed out, a gated action followed by a successful sign-in runs that action exactly once,
      and leaves the modal closed and the slot empty. */
  lemma GatedThenSignedIn(c: Card, a: Action)
    ensures var r := SignInSuccessStep(RequireAuthStep(c, false, a));
      r.ran == c.ran + [a] && !r.showSignInModal && r.pendingAction.None? &&
      r.votes == RunStep(c, a).votes
  {
    NameRoundTrip(Name(a), a);
  }

  /** Signed out, a gated action followed by cancel runs nothing and changes no vote. */
  lemma GatedThenCancelled(c: Card, a: Action)
    ensures var r := CancelStep(RequireAuthStep(c, false, a));
      r.ran == c.ran && r.votes == c.votes && !r.showSignInModal && r.pendingAction.None?
  {
  }

  /** Two gated requests before signing in: only the second one runs. */
  lemma LastRequestWins(c: Card, a: Action, b: Action)
    ensures SignInSuccessStep(RequireAuthStep(RequireAuthStep(c, false, a), false, b))
      == SignInSuccessStep(RequireAuthStep(c, false, b))
    ensures SignInSuccessStep(RequireAuthStep(RequireAuthStep(c, false, a), false, b)).ran == c.ran + [b]
  {
    NameRoundTrip(Name(b), b);
  }

  /** A sign-in with nothing replayable stored (no name, or a name that is no action) runs
      nothing and changes no vote. */
  lemma SignInWithoutKnownAction(c: Card)
    requires c.pendingAction.None? || ActionNamed(c.pendingAction.value).None?
    ensures SignInSuccessStep(c) == c.(showSignInModal := false, pendingAction := None)
  {
  }

  /** Whatever the user does on the card, the votes stay consistent. */
  lemma StepsKeepVotesConsistent(c: Card, isAuthenticated: bool, a: Action)
    requires Consistent(c.votes)
    ensures Consistent(RequireAuthStep(c, isAuthenticated, a).votes)
    ensures Consistent(SignInSuccessStep(c).votes)
    ensures Consistent(CancelStep(c).votes)
  {
  }

  // ---------------------------------------------------------------------------------------
  // The component

  /** The card's `useState` fields and its handlers. `isAuthenticated` comes from the auth
      context at the time of the click. */
  class Component {
    var showSignInModal: bool
    var pendingAction: Option<string>
    var isLiked: bool
    var isDisliked: bool
    var likeCount: int
    var ran: seq<Action>

    function State(): Card
      reads this
    {
      Card(showSignInModal, pendingAction, Votes(isLiked, isDisliked, likeCount), ran)
    }

    constructor ()
      ensures State() == InitialCard
    {
      showSignInModal := false;
      pendingAction := None;
      isLiked := false;
      isDisliked := false;
      likeCount := 0;
      ran := [];
    }

    method HandleLikeAction()
      modifies this
      ensures State() == RunStep(old(State()), Like)
    {
      if isLiked {
        isLiked := false;
        likeCount := likeCount - 1;
      } else {
        isLiked := true;
        isDisliked := false;
        likeCount := likeCount + 1;
      }
      ran := ran + [Like];
    }

    method HandleDislikeAction()
      modifies this
      ensures State() == RunStep(old(State()), Dislike)
    {
      if isDisliked {
        isDisliked := false;
      } else {
        isDisliked := true;
        if isLiked {
          isLiked := false;
          likeCount := likeCount - 1;
        }
      }
      ran := ran + [Dislike];
    }

    method HandleDownloadAction()
      modifies this
      ensures State() == RunStep(old(State()), Download)
    {
      ran := ran + [Download];
    }

    method HandleEditAction()
      modifies this
      ensures State() == RunStep(old(State()), Edit)
    {
      ran := ran + [Edit];
    }

    method Perform(a: Action)
      modifies this
      ensures State() == RunStep(old(State()), a)
    {
      match a {
        case Download => HandleDownloadAction();
        case Like => HandleLikeAction();
        case Dislike => HandleDislikeAction();
        case Edit => HandleEditAction();
      }
    }

    method RequireAuth(isAuthenticated: bool, a: Action)
      modifies this
      ensures State() == RequireAuthStep(old(State()), isAuthenticated, a)
    {
      if !isAuthenticated {
        pendingAction := Some(Name(a));
        showSignInModal := true;
        return;
      }
      Perform(a);
    }

    method HandleSignInSuccess()
      modifies this
      ensures State() == SignInSuccessStep(old(State()))
    {
      showSignInModal := false;
      if pendingAction == Some("download") {
        HandleDownloadAction();
      } else if pendingAction == Some("like") {
        HandleLikeAction();
      } else if pendingAction == Some("dislike") {
        HandleDislikeAction();
      } else if pendingAction == Some("edit") {
        HandleEditAction();
      }
      pendingAction := None;
    }

    method Cancel()
      modifies this
      ensures State() == CancelStep(old(State()))
    {
      showSignInModal := false;
      pendingAction := None;
    }
  }
}
