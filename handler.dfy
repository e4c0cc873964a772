/** The keyword check at the top of the concordance HTTP handler: a keyword
    outside 4..30 bytes gets a 400 error before any search starts. */
module Handler {
  import opened Utf8
  import opened SimdSearch

  /** `MIN_KEYWORD_LENGTH` and `MAX_KEYWORD_LENGTH`, in bytes. */
  const MinKeywordLength: nat := 4
  const MaxKeywordLength: nat := 30

  /** The handler's verdict on a keyword. */
  datatype KeywordCheck = Accepted | TooShort | TooLong

  /** The length checks of `handleConcord`, shortest first: a keyword is
      searched for exactly when its byte length lies in `[4, 30]`. */
  function CheckKeyword(keyword: seq<Byte>): (c: KeywordCheck)
    ensures c == Accepted <==> MinKeywordLength <= |keyword| <= MaxKeywordLength
    ensures c == TooShort <==> |keyword| < MinKeywordLength
    ensures c == TooLong <==> |keyword| > MaxKeywordLength
  {
    if |keyword| < MinKeywordLength then TooShort
    else if |keyword| > MaxKeywordLength then TooLong
    else Accepted
  }

  /** An accepted keyword is never empty and always fits one 32-byte
      vector, so both finders can search for it and the masked search
      never refuses it for its length. */
  lemma AcceptedKeywordFits(keyword: seq<Byte>)
    requires CheckKeyword(keyword) == Accepted
    ensures 0 < |keyword| <= Width
  {
  }
}
