/** The per-visitor session: the CSRF token, the admin flag and the cart, and the
    CSRF check every state-changing admin form goes through. */
module Sessions {
  import opened Common
  import opened ShoppingCart

  /** What `secrets.token_hex(16)` returns: 32 lower-case hexadecimal digits. */
  predicate IsTokenHex(t: string) {
    |t| == 32 && forall i :: 0 <= i < |t| ==> t[i] in "0123456789abcdef"
  }

  /** A value Python treats as true: present and not the empty string. */
  predicate Truthy(v: Option<string>) {
    v.Some? && v.value != []
  }

  /** `verify_csrf`: the session's token and the form's token are both present,
      non-empty and equal. */
  function VerifyCsrf(sessionToken: Option<string>, formToken: Option<string>): (ok: bool)
    ensures ok <==> sessionToken.Some? && sessionToken.value != [] && formToken == sessionToken
  {
    Truthy(sessionToken) && Truthy(formToken) && sessionToken == formToken
  }

  /** A missing or mismatched form token is refused, and a form that echoes a
      token issued by `generate_csrf_token` is accepted. */
  lemma {:induction false} CsrfChecks(t: string, other: Option<string>)
    requires IsTokenHex(t) && other != Some(t)
    ensures VerifyCsrf(Some(t), Some(t))
    ensures !VerifyCsrf(Some(t), other)
    ensures !VerifyCsrf(None, other) && !VerifyCsrf(None, Some(t))
  {
    assert t[0] in "0123456789abcdef";
  }

  class Session {
    var csrfToken: Option<string>
    var adminLoggedIn: bool
    var cart: StoredCart

    /** Tokens come from `token_hex`, and a stored dictionary cart is well formed
        and in name order, as the session cookie writes it. */
    ghost predicate Valid()
      reads this`csrfToken, this`cart
    {
      && (csrfToken.Some? ==> IsTokenHex(csrfToken.value))
      && (cart.Current? ==> WellFormed(cart.entries) && SortedByName(cart.entries))
    }

    /** A new visitor's session holds nothing. */
    constructor ()
      ensures Valid() && csrfToken == None && !adminLoggedIn && cart == Absent
    {
      csrfToken := None;
      adminLoggedIn := false;
      cart := Absent;
    }

    /** `generate_csrf_token`: keeps a token already issued to this session;
        otherwise stores `newToken`, the output of `secrets.token_hex(16)`. Either
        way a form that echoes the returned token passes `verify_csrf`. */
    method GenerateCsrfToken(newToken: string) returns (token: string)
      requires Valid() && IsTokenHex(newToken)
      modifies this`csrfToken
      ensures Valid()
      ensures old(csrfToken).Some? ==> csrfToken == old(csrfToken) && token == old(csrfToken).value
      ensures old(csrfToken).None? ==> csrfToken == Some(newToken) && token == newToken
      ensures VerifyCsrf(csrfToken, Some(token))
    {
      if csrfToken.None? {
        csrfToken := Some(newToken);
      }
      token := csrfToken.value;
      CsrfChecks(token, None);
    }

    /** `session.clear()`: token, admin flag and cart all go. */
    method Clear()
      modifies this
      ensures Valid() && csrfToken == None && !adminLoggedIn && cart == Absent
    {
      csrfToken := None;
      adminLoggedIn := false;
      cart := Absent;
    }
  }
}
