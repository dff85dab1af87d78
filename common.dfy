/** Shared value types of the storefront model: optional values, the outcome of a
    request handler that may raise, and the redirect-plus-flash responses the
    handlers produce. */
module Common {

  datatype Option<T> = None | Some(value: T)

  /** A handler either completes with a value or raises an uncaught exception,
      which the web framework turns into a failed request. */
  datatype Result<T> = Ok(value: T) | Raised(exception: string)

  /** The pages a handler can redirect to. */
  datatype Page = HomePage | ProductsPage | CartPage | AdminPage | AdminLoginPage | RegisterPage

  /** A one-shot status message shown on the next rendered page, with its category
      ("success", "error", "danger", "warning" or "info"). */
  datatype Flash = Flash(message: string, category: string)

  /** Every mutating handler ends by redirecting, possibly with a flash message. */
  datatype Response = Redirect(to: Page, flash: Option<Flash>)
}
