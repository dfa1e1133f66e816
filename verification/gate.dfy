/**
  The `x-client-key` gate put in front of the save-form handler. The list of
  allowed keys is an explicit parameter rather than process-wide state; a
  missing header reads as the empty string, as `Header.Get` returns it.
 */
module Gate {
  import opened Http

  const MissingKeyMessage := "x-client-key header is required"
  const UnknownKeyMessage := "key is not found"

  datatype Decision = Allow(clientKey: string) | Deny(message: string)

  /** The scan over the allowed keys, stopping at the first exact match. */
  function FindKey(allowed: seq<string>, key: string): (found: bool)
    ensures found <==> key in allowed
    decreases |allowed|
  {
    if |allowed| == 0 then false
    else if key == allowed[0] then true
    else FindKey(allowed[1..], key)
  }

  /** The three-way decision of the middleware. */
  function Authorize(allowed: seq<string>, header: string): (d: Decision)
    ensures header == "" ==> d == Deny(MissingKeyMessage)
    ensures header != "" && header in allowed ==> d == Allow(header)
    ensures header != "" && header !in allowed ==> d == Deny(UnknownKeyMessage)
  {
    if header == "" then Deny(MissingKeyMessage)
    else if FindKey(allowed, header) then Allow(header)
    else Deny(UnknownKeyMessage)
  }

  /**
    The middleware around a handler `next` that works on some state `s`
    (the files on disk). When it denies, `next` is not run: the state is
    returned untouched with a 403 response. When it allows, the result is
    exactly one run of `next`, given the accepted key as `clientKey`.
   */
  function Guard<S>(allowed: seq<string>, header: string, s: S,
                    next: (string, S) -> (Response, S)): (r: (Response, S))
    ensures header == "" ==>
              r == (Response(StatusForbidden, Message(MissingKeyMessage)), s)
    ensures header != "" && header in allowed ==> r == next(header, s)
    ensures header != "" && header !in allowed ==>
              r == (Response(StatusForbidden, Message(UnknownKeyMessage)), s)
  {
    match Authorize(allowed, header)
    case Allow(key) => next(key, s)
    case Deny(msg) => (Response(StatusForbidden, Message(msg)), s)
  }

  /** The two denials are told apart by their messages. */
  lemma DenialsDiffer()
    ensures MissingKeyMessage != UnknownKeyMessage
  {
    assert MissingKeyMessage[0] != UnknownKeyMessage[0];
  }
}
