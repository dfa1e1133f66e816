/** The responses the handlers produce: a status code and what the body carries. */
module Http {
  import Validation

  const StatusOK: nat := 200
  const StatusBadRequest: nat := 400
  const StatusForbidden: nat := 403
  const StatusNotFound: nat := 404
  const StatusInternalServerError: nat := 500

  datatype Body =
    | Message(text: string)
      /** The validator's error list, surfaced to the client as its error text. */
    | ValidationFailed(errors: seq<Validation.FieldError>)
    | Saved(text: string, path: string)
    | StatusText(text: string)
      /** The form page: the template's `data`, `url` and `clientXToken` inputs. */
    | FormPage(data: Validation.Form, url: string, clientXToken: string)
      /** The auto-redirect snippet: go to `url` after `delaySeconds`. */
    | Redirect(delaySeconds: nat, url: string)

  datatype Response = Response(status: nat, body: Body)
}
