/**
 * frontend/src/components/Header.tsx: the upload button, which asks a signed-out visitor to
 * sign in first and then opens the upload modal, and the forwarding of an uploaded note to the
 * optional `onNoteUploaded` callback.
 */
module Header {
  datatype Modals = Modals(showSignInModal: bool, isUploadModalOpen: bool)

  const Closed := Modals(false, false)

  /** `handleUploadClick`: signed out, only the sign-in modal opens; signed in, the upload
      modal opens. */
  function UploadClickStep(m: Modals, isAuthenticated: bool): (r: Modals)
    ensures !isAuthenticated ==> r.showSignInModal && r.isUploadModalOpen == m.isUploadModalOpen
    ensures isAuthenticated ==> r.isUploadModalOpen && r.showSignInModal == m.showSignInModal
  {
    if !isAuthenticated then m.(showSignInModal := true) else m.(isUploadModalOpen := true)
  }

  /** `handleSignInSuccess`: the sign-in modal gives way to the upload modal. */
  function SignInSuccessStep(m: Modals): (r: Modals)
    ensures r.isUploadModalOpen && !r.showSignInModal
  {
    m.(showSignInModal := false, isUploadModalOpen := true)
  }

  /** The sign-in modal's cancel button. */
  function CancelStep(m: Modals): (r: Modals)
    ensures !r.showSignInModal && r.isUploadModalOpen == m.isUploadModalOpen
  {
    m.(showSignInModal := false)
  }

  /** The upload modal's `onClose`. */
  function UploadCloseStep(m: Modals): (r: Modals)
    ensures !r.isUploadModalOpen && r.showSignInModal == m.showSignInModal
  {
    m.(isUploadModalOpen := false)
  }

  /** A signed-out click never opens the upload modal by itself. */
  lemma SignedOutClickAsksForSignIn(m: Modals)
    ensures UploadClickStep(m, false).showSignInModal
    ensures UploadClickStep(m, false).isUploadModalOpen == m.isUploadModalOpen
  {
  }

  /** Clicking while signed out and then signing in ends where a signed-in click does: the
      upload modal is open and the sign-in modal closed. */
  lemma SignInResumesUpload(m: Modals)
    requires !m.showSignInModal
    ensures SignInSuccessStep(UploadClickStep(m, false)) == UploadClickStep(m, true)
    ensures SignInSuccessStep(UploadClickStep(m, false)).isUploadModalOpen
  {
  }

  /** Clicking while signed out and then cancelling returns to where the click started. */
  lemma CancelUndoesClick(m: Modals)
    requires !m.showSignInModal
    ensures CancelStep(UploadClickStep(m, false)) == m
  {
  }

  /** Opening the upload modal and closing it again, from a closed header, closes everything. */
  lemma UploadThenCloseIsClosed(isAuthenticated: bool)
    ensures UploadCloseStep(SignInSuccessStep(UploadClickStep(Closed, isAuthenticated))) == Closed
    ensures UploadCloseStep(UploadClickStep(Closed, true)) == Closed
  {
  }

  /** `handleUploadSuccess`: what reaches `onNoteUploaded`, which is called only when the
      parent passed it. */
  function Forwarded<N>(delivered: seq<N>, hasCallback: bool, note: N): seq<N> {
    if hasCallback then delivered + [note] else delivered
  }

  /** What has reached `onNoteUploaded` after a series of successful uploads. */
  function ForwardedAll<N>(delivered: seq<N>, hasCallback: bool, notes: seq<N>): seq<N>
    decreases |notes|
  {
    if notes == [] then delivered
    else ForwardedAll(Forwarded(delivered, hasCallback, notes[0]), hasCallback, notes[1..])
  }

  /** With the callback, every uploaded note reaches the parent once, in upload order; without
      it, nothing does. */
  lemma {:induction false} ForwardedInOrder<N>(delivered: seq<N>, hasCallback: bool, notes: seq<N>)
    ensures hasCallback ==> ForwardedAll(delivered, hasCallback, notes) == delivered + notes
    ensures !hasCallback ==> ForwardedAll(delivered, hasCallback, notes) == delivered
    decreases |notes|
  {
    if notes != [] {
      ForwardedInOrder(Forwarded(delivered, hasCallback, notes[0]), hasCallback, notes[1..]);
      if hasCallback {
        assert delivered + [notes[0]] + notes[1..] == delivered + notes by {
          assert notes == [notes[0]] + notes[1..];
        }
      }
    }
  }

  /** The header's `useState` fields; `delivered` lists the notes handed to `onNoteUploaded`. */
  class Component<N> {
    var showSignInModal: bool
    var isUploadModalOpen: bool
    var delivered: seq<N>
    const hasCallback: bool

    function State(): Modals
      reads this
    {
      Modals(showSignInModal, isUploadModalOpen)
    }

    constructor (hasCallback: bool)
      ensures State() == Closed && delivered == [] && this.hasCallback == hasCallback
    {
      showSignInModal := false;
      isUploadModalOpen := false;
      delivered := [];
      this.hasCallback := hasCallback;
    }

    method HandleUploadClick(isAuthenticated: bool)
      modifies this
      ensures State() == UploadClickStep(old(State()), isAuthenticated)
      ensures delivered == old(delivered)
    {
      if !isAuthenticated {
        showSignInModal := true;
        return;
      }
      isUploadModalOpen := true;
    }

    method HandleSignInSuccess()
      modifies this
      ensures State() == SignInSuccessStep(old(State()))
      ensures delivered == old(delivered)
    {
      showSignInModal := false;
      isUploadModalOpen := true;
    }

    method Cancel()
      modifies this
      ensures State() == CancelStep(old(State()))
      ensures delivered == old(delivered)
    {
      showSignInModal := false;
    }

    method CloseUploadModal()
      modifies this
      ensures State() == UploadCloseStep(old(State()))
      ensures delivered == old(delivered)
    {
      isUploadModalOpen := false;
    }

    method HandleUploadSuccess(note: N)
      modifies this
      ensures State() == old(State())
      ensures delivered == Forwarded(old(delivered), hasCallback, note)
    {
      if hasCallback {
        delivered := delivered + [note];
      }
    }
  }
}
