/**
 * Error reporting (src/error.c): the message table behind the status
 * codes and the error slot every encoder and decoder carries.
 */
module Errors {
  import opened Types

  /**
   * struct mux_error_info.  The C strings are pointers that may be null;
   * a null pointer is None.
   */
  datatype ErrorInfo = ErrorInfo(code: int, message: Option<string>, libraryCode: int,
                                 libraryName: Option<string>, libraryMsg: Option<string>)

  /** The slot after a memset to zero: code OK and every pointer null. */
  const CLEARED: ErrorInfo := ErrorInfo(OK, None, 0, None, None)

  /** The message table, indexed by the negated status code. */
  const MESSAGES: seq<string> := [
    "Success",
    "Generic error",
    "Out of memory",
    "Invalid argument",
    "Need more data",
    "Codec not available",
    "End of file",
    "Encoding error",
    "Decoding error",
    "Format/container error",
    "Initialization error"
  ]

  const UNKNOWN: string := "Unknown error"

  /** mux_error_string: the table entry for 0 and -1 .. -10, "Unknown error" otherwise. */
  function ErrorString(code: int): (r: string)
    ensures r != []
  {
    if code == 0 then MESSAGES[0]
    else if -code < 0 || -code >= |MESSAGES| then UNKNOWN
    else MESSAGES[-code]
  }

  /** A message's length and first character, which already tell the table's entries apart. */
  function Key(s: string): int
    requires s != []
  {
    256 * |s| + (s[0] as int)
  }

  /** Which table entry has a given key; -1 for the key of "Unknown error" and any other key. */
  function EntryWithKey(k: int): int
  {
    if k == 1875 then 0 else if k == 3399 then 1 else if k == 3407 then 2
    else if k == 4169 then 3 else if k == 3662 then 4 else if k == 4931 then 5
    else if k == 2885 then 6 else if k == 3653 then 7 else if k == 3652 then 8
    else if k == 5702 then 9 else if k == 5193 then 10 else -1
  }

  lemma TableKeys(i: nat)
    requires i < |MESSAGES|
    ensures MESSAGES[i] != [] && EntryWithKey(Key(MESSAGES[i])) == i
  {
  }

  /** Every status code the library defines has its own message, and none of them is "Unknown error". */
  lemma MessagesIdentifyCodes(a: int, b: int)
    requires INIT <= a <= OK && INIT <= b <= OK
    ensures ErrorString(a) != UNKNOWN
    ensures ErrorString(a) == ErrorString(b) <==> a == b
  {
    TableKeys(-a);
    TableKeys(-b);
    assert EntryWithKey(Key(UNKNOWN)) == -1;
  }

  /** Codes outside the table, positive or below -10, all read "Unknown error". */
  lemma UnknownCodes(code: int)
    ensures ErrorString(code) == UNKNOWN <==> code > OK || code < INIT
  {
    if INIT <= code <= OK {
      MessagesIdentifyCodes(code, code);
    }
  }

  /**
   * What set_error stores: all five fields overwritten, a missing message
   * replaced by the code's own message.
   */
  function Recorded(code: int, message: Option<string>, libraryName: Option<string>,
                    libraryCode: int, libraryMsg: Option<string>): ErrorInfo
  {
    ErrorInfo(code, if message.Some? then message else Some(ErrorString(code)), libraryCode, libraryName, libraryMsg)
  }

  /**
   * A recorded slot always carries a message.  One recorded without a
   * message of its own names its code unambiguously: it reads "Unknown
   * error" exactly when the code is outside the table, and no other code
   * of the table has that message.
   */
  lemma RecordedMessage(code: int, libraryName: Option<string>, libraryCode: int, libraryMsg: Option<string>)
    ensures Recorded(code, None, libraryName, libraryCode, libraryMsg).message.Some?
    ensures Recorded(code, None, libraryName, libraryCode, libraryMsg).message == Some(UNKNOWN) <==>
      code > OK || code < INIT
    ensures forall c | INIT <= c <= OK ::
      Recorded(code, None, libraryName, libraryCode, libraryMsg).message == Some(ErrorString(c)) ==> c == code
  {
    UnknownCodes(code);
    forall c | INIT <= c <= OK
      ensures Recorded(code, None, libraryName, libraryCode, libraryMsg).message == Some(ErrorString(c)) ==> c == code
    {
      if INIT <= code <= OK {
        MessagesIdentifyCodes(c, code);
      } else {
        MessagesIdentifyCodes(c, c);
      }
    }
  }
}
