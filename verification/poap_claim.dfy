/**
 The POAP claim widget: the claim status a submit or a sign-out leaves behind,
 the panel the widget shows for an authentication status, and the wallet-id
 pattern the form enforces before it lets a submit through.
 */
module PoapClaim {
  import opened Wrappers

  /** The Twitter authentication status, with the variants the widget sets or inspects. */
  datatype AuthStatus =
    | AuthInit
    | Checking
    | Authenticating
    | SigningOut
    | Authenticated(handle: string, eligibleForPoap: bool, claimedPoap: bool)
    | AuthError(message: string)

  /** The claim status shown next to the wallet input. */
  datatype ClaimStatus = ClaimInit | Sending | InvalidAddress | ClaimError | Sent

  /** The body of a non-200, non-400 reply; whatever it is, the claim fails. */
  datatype Body = NotJson | JsonWithoutMessage | JsonMessage(message: string)

  /** How a request ended: the fetch rejected, or a response with a status code arrived. */
  datatype Reply = Rejected | Response(status: int, body: Body)

  /** What one submit does: the claim statuses it sets, in order, and whether it asks for a claim-count refresh. */
  datatype SubmitEffect = SubmitEffect(statuses: seq<ClaimStatus>, refresh: bool)

  /** The claim status a submit leaves behind. */
  function FinalStatus(e: SubmitEffect): ClaimStatus
    requires |e.statuses| > 0
  {
    e.statuses[|e.statuses| - 1]
  }

  /**
   handleSubmit's outcome logic. Without authentication the submit throws at
   once and the catch sets "error". Otherwise "sending" is set before the
   request, then 200 sets "sent" and refreshes, 400 sets "invalid-address",
   and anything else (another status, an unreadable body, a rejected fetch)
   ends in a thrown error and so in "error".
   */
  function Submit(auth: AuthStatus, reply: Reply): (e: SubmitEffect)
    ensures |e.statuses| > 0
    ensures auth.Authenticated? <==> e.statuses[0] == Sending
    ensures !auth.Authenticated? ==> e.statuses == [ClaimError]
    ensures auth.Authenticated? ==> |e.statuses| == 2
    ensures e.refresh <==> FinalStatus(e) == Sent
  {
    if !auth.Authenticated? then SubmitEffect([ClaimError], false)
    else
      match reply
      case Response(200, _) => SubmitEffect([Sending, Sent], true)
      case Response(400, _) => SubmitEffect([Sending, InvalidAddress], false)
      case _ => SubmitEffect([Sending, ClaimError], false)
  }

  /** The final claim status in terms of the inputs: "sent" iff 200, "invalid-address" iff 400, else "error". */
  lemma SubmitFinalStatus(auth: AuthStatus, reply: Reply)
    ensures FinalStatus(Submit(auth, reply)) == Sent <==>
      auth.Authenticated? && reply.Response? && reply.status == 200
    ensures FinalStatus(Submit(auth, reply)) == InvalidAddress <==>
      auth.Authenticated? && reply.Response? && reply.status == 400
    ensures FinalStatus(Submit(auth, reply)) == ClaimError <==>
      !auth.Authenticated? || reply.Rejected? || (reply.status != 200 && reply.status != 400)
    ensures FinalStatus(Submit(auth, reply)) !in {ClaimInit, Sending}
  {
  }

  /** The body of a reply never matters: only its status code does. */
  lemma SubmitIgnoresBody(auth: AuthStatus, status: int, body: Body, body': Body)
    ensures Submit(auth, Response(status, body)) == Submit(auth, Response(status, body'))
  {
  }

  predicate IsHexDigit(c: char) {
    ('0' <= c <= '9') || ('a' <= c <= 'f') || ('A' <= c <= 'F')
  }

  /** The characters a regular-expression `.` does not match. */
  predicate IsLineTerminator(c: char) {
    c == '\n' || c == '\r' || c == '\U{2028}' || c == '\U{2029}'
  }

  /** First alternative, `0x[0-9a-fA-F]{40}`, matched against the whole value. */
  predicate IsHexAddress(s: string) {
    |s| == 42 && s[0] == '0' && s[1] == 'x' && forall i :: 2 <= i < 42 ==> IsHexDigit(s[i])
  }

  /** Second alternative, `.+\.eth`, matched against the whole value. */
  predicate IsEnsName(s: string) {
    && |s| >= 5
    && s[|s| - 4..] == ".eth"
    && forall i :: 0 <= i < |s| - 4 ==> !IsLineTerminator(s[i])
  }

  /** The input's `pattern`: a form value is accepted iff one alternative matches it entirely. */
  predicate WalletIdValid(s: string) {
    IsHexAddress(s) || IsEnsName(s)
  }

  /** A character-by-character matcher for the wallet-id pattern, agreeing with it on every string. */
  method MatchWalletId(s: string) returns (ok: bool)
    ensures ok <==> WalletIdValid(s)
  {
    var hex := |s| == 42 && s[0] == '0' && s[1] == 'x';
    var i := 2;
    while hex && i < 42
      invariant 2 <= i <= 42
      invariant hex ==> |s| == 42 && s[0] == '0' && s[1] == 'x'
      invariant hex <==> (|s| == 42 && s[0] == '0' && s[1] == 'x' && forall j :: 2 <= j < i ==> IsHexDigit(s[j]))
    {
      hex := IsHexDigit(s[i]);
      i := i + 1;
    }
    if hex {
      return true;
    }
    if |s| < 5 || s[|s| - 4..] != ".eth" {
      return false;
    }
    var k := 0;
    while k < |s| - 4
      invariant 0 <= k <= |s| - 4
      invariant forall j :: 0 <= j < k ==> !IsLineTerminator(s[j])
    {
      if IsLineTerminator(s[k]) {
        return false;
      }
      k := k + 1;
    }
    return true;
  }

  /** The two alternatives never both match: a hex address ends in a hex digit, never in 'h'. */
  lemma AlternativesDisjoint(s: string)
    ensures !(IsHexAddress(s) && IsEnsName(s))
  {
    assert IsHexAddress(s) ==> s[|s| - 4..][3] == s[41] && IsHexDigit(s[41]);
  }

  /** ENS-style samples: one character before ".eth" is enough, none is not. */
  lemma EnsNameExamples()
    ensures WalletIdValid("vitalik.eth")
    ensures WalletIdValid("a.eth")
    ensures !WalletIdValid(".eth")
    ensures !WalletIdValid("vitalik.eth\n")
  {
    assert "vitalik.eth"[7..] == ".eth";
    assert "a.eth"[1..] == ".eth";
    assert "vitalik.eth\n"[8..] == "eth\n";
  }

  /** A mixed-case address of exactly 40 hex digits is accepted. */
  lemma HexAddressAccepted()
    ensures WalletIdValid("0x" + "d4E96eF8eee8678dBFf4d535E033Ed1a4F7605b7")
  {
    var h := "d4E96eF8eee8678dBFf4d535E033Ed1a4F7605b7";
    assert forall i :: 0 <= i < |h| ==> IsHexDigit(h[i]);
    var a := "0x" + h;
    assert a[0] == '0' && a[1] == 'x';
    assert forall i :: 2 <= i < |a| ==> a[i] == h[i - 2];
    assert IsHexAddress(a);
  }

  /** One hex digit short, or a non-hex digit, and the value is rejected. */
  lemma HexAddressRejected()
    ensures !WalletIdValid("0x" + "d4E96eF8eee8678dBFf4d535E033Ed1a4F7605b")
    ensures !WalletIdValid("0xd4nk")
  {
    var b := "0x" + "d4E96eF8eee8678dBFf4d535E033Ed1a4F7605b";
    assert |b| == 41;
    assert b[|b| - 1] == 'b';
    var c := "0xd4nk";
    assert c[|c| - 1] == 'k';
  }

  /** The widget's state: authentication status, typed wallet id and claim status. */
  datatype Widget = Widget(auth: AuthStatus, walletId: string, claim: ClaimStatus)

  const InitialWidget: Widget := Widget(AuthInit, "", ClaimInit)

  /**
   A press of the submit button. The form's `pattern` and `required` attributes
   stop an invalid value before the handler runs, so nothing changes; otherwise
   the handler runs and the claim status becomes the submit's final status.
   */
  function SubmitForm(w: Widget, reply: Reply): (r: (Widget, bool))
    ensures r.0.auth == w.auth && r.0.walletId == w.walletId
    ensures !WalletIdValid(w.walletId) ==> r == (w, false)
    ensures WalletIdValid(w.walletId) ==> r.0.claim == FinalStatus(Submit(w.auth, reply))
    ensures r.1 <==> WalletIdValid(w.walletId) && r.0.claim == Sent
  {
    if !WalletIdValid(w.walletId) then (w, false)
    else
      var e := Submit(w.auth, reply);
      (w.(claim := FinalStatus(e)), e.refresh)
  }

  /** A claim only ends "sent" for a valid wallet id, an authenticated user and a 200 reply. */
  lemma SentRequiresEverything(w: Widget, reply: Reply)
    requires w.claim != Sent
    requires SubmitForm(w, reply).0.claim == Sent
    ensures WalletIdValid(w.walletId) && w.auth.Authenticated? && reply.Response? && reply.status == 200
  {
    SubmitFinalStatus(w.auth, reply);
  }

  /**
   handleSignOut: the status becomes "signing-out" before the DELETE request.
   A 200 reply clears the wallet id and resets claim and auth to their initial
   values; any other status records the sign-out error and keeps the rest; a
   rejected fetch throws before any further update, leaving "signing-out".
   */
  function SignOut(w: Widget, reply: Reply): (r: Widget)
    ensures reply.Response? && reply.status == 200 ==> r == InitialWidget
    ensures reply.Response? && reply.status != 200 ==>
      r == w.(auth := AuthError("failed to sign out"))
    ensures reply.Rejected? ==> r == w.(auth := SigningOut)
  {
    var pending := w.(auth := SigningOut);
    match reply
    case Rejected => pending
    case Response(status, _) =>
      if status == 200 then Widget(AuthInit, "", ClaimInit)
      else pending.(auth := AuthError("failed to sign out"))
  }

  /** Only a successful sign-out touches the wallet id or the claim status. */
  lemma SignOutKeepsClaimUnlessOk(w: Widget, reply: Reply)
    requires !(reply.Response? && reply.status == 200)
    ensures SignOut(w, reply).walletId == w.walletId && SignOut(w, reply).claim == w.claim
    ensures !SignOut(w, reply).auth.Authenticated?
  {
  }

  /** Below the Twitter row the widget shows one of three panels; the form is usable only when authenticated. */
  datatype Panel = NotEligible | Claimed | ClaimForm(enabled: bool)

  function ShownPanel(auth: AuthStatus): (p: Panel)
    ensures p == NotEligible <==> auth.Authenticated? && !auth.eligibleForPoap
    ensures p == Claimed <==> auth.Authenticated? && auth.eligibleForPoap && auth.claimedPoap
    ensures p.ClaimForm? ==> (p.enabled <==> auth.Authenticated?)
  {
    if auth.Authenticated? && !auth.eligibleForPoap then NotEligible
    else if auth.Authenticated? && auth.claimedPoap then Claimed
    else ClaimForm(auth.Authenticated?)
  }

  /** "Not eligible" takes precedence over "claimed"; an eligible, unclaimed user gets a usable form. */
  lemma PanelPrecedence(handle: string)
    ensures ShownPanel(Authenticated(handle, false, true)) == NotEligible
    ensures ShownPanel(Authenticated(handle, true, false)) == ClaimForm(true)
    ensures forall auth: AuthStatus :: !auth.Authenticated? ==> ShownPanel(auth) == ClaimForm(false)
  {
  }

  /** After a successful sign-out the panel is the disabled form and the claim status is blank. */
  lemma SignOutShowsDisabledForm(w: Widget, body: Body)
    ensures ShownPanel(SignOut(w, Response(200, body)).auth) == ClaimForm(false)
    ensures SignOut(w, Response(200, body)).claim == ClaimInit
  {
  }
}
