/**
 The chirp validation endpoint, `handlerValidate` in main.go: a decoded chirp
 body is rejected when it is longer than 140 bytes, and otherwise every
 space-separated word whose lower-case form is a banned word is masked.
 The JSON decoder's outcome is an input (`Result`), and the HTTP response is a
 value (`Response`: status code and JSON payload) rather than writes to a
 connection.
 */
module Chirp {
  import opened GoStrings

  /** What `json.Decoder.Decode` produced: the chirp's `body` field, or the
      text of the decoding error. */
  datatype Result<T> = Ok(value: T) | Err(message: string)

  /** The two JSON payloads the endpoint writes: `{"error": ...}` and
      `{"cleaned_body": ...}`. */
  datatype Payload = ErrorBody(error: string) | CleanedBody(cleanedBody: string)

  datatype Response = Response(status: int, payload: Payload)

  const StatusOK := 200
  const StatusBadRequest := 400
  const StatusInternalServerError := 500

  const MaxChirpLength := 140
  const TooLong := "chirp too long"
  const BannedWords: seq<string> := ["kerfuffle", "sharbert", "fornax"]
  const Mask: string := "****"
  const Space := ' '

  /** A word is banned when its lower-case form is one of the banned words;
      a banned word is six to nine bytes long. */
  predicate IsBanned(word: string)
    ensures IsBanned(word) ==> 6 <= |word| <= 9
  {
    Contains(BannedWords, ToLower(word))
  }

  /** One step of the cleaning loop: the mask for a banned word, the word
      itself, with its case and punctuation, otherwise. */
  function MapToken(word: string): (r: string)
    ensures r == word || r == Mask
    ensures |r| <= |word|
    ensures Space !in word ==> Space !in r
    ensures !IsBanned(r)
  {
    if IsBanned(word) then Mask else word
  }

  /** The words after the cleaning loop has seen all of `words`, built by
      appending one mapped word at a time. */
  function MapTokens(words: seq<string>): (r: seq<string>)
    ensures |r| == |words|
    ensures forall i :: 0 <= i < |words| ==> r[i] == MapToken(words[i])
  {
    if words == [] then []
    else MapTokens(words[..|words| - 1]) + [MapToken(words[|words| - 1])]
  }

  /** The cleaned body: split on single spaces, map every word, join with
      single spaces. */
  function Clean(body: string): (r: string)
    ensures Split(r, Space) == MapTokens(Split(body, Space))
    ensures |r| <= |body|
  {
    var words := Split(body, Space);
    var mapped := MapTokens(words);
    // the mapped words hold no space, so splitting their join gives them back
    SplitJoin(mapped, Space);
    // every word maps to one no longer than itself, and the words join to the body
    JoinNoLonger(mapped, words, Space);
    JoinSplit(body, Space);
    Join(mapped, Space)
  }

  /** The endpoint's response for a decoder outcome: 500 with the decoder's
      error line, 400 for a body longer than 140 bytes, 200 with the cleaned
      body otherwise. */
  function Validate(decoded: Result<string>): (r: Response)
    ensures r.status == StatusInternalServerError <==> decoded.Err?
    ensures r.status == StatusBadRequest <==> decoded.Ok? && |decoded.value| > MaxChirpLength
    ensures r.status == StatusOK <==> decoded.Ok? && |decoded.value| <= MaxChirpLength
    ensures r.payload.ErrorBody? <==> r.status != StatusOK
    ensures decoded.Err? ==> r.payload.error == decoded.message + "\n"
    ensures r.status == StatusBadRequest ==> r.payload.error == TooLong
    ensures r.status == StatusOK ==> r.payload == CleanedBody(Clean(decoded.value))
    ensures r.status == StatusOK ==> |r.payload.cleanedBody| <= MaxChirpLength
  {
    match decoded
    case Err(message) =>
      // fmt.Sprintln appends a newline to the error text
      Response(StatusInternalServerError, ErrorBody(message + "\n"))
    case Ok(body) =>
      if |body| > MaxChirpLength then Response(StatusBadRequest, ErrorBody(TooLong))
      else Response(StatusOK, CleanedBody(Clean(body)))
  }

  /** The handler itself: the two error checks in order, then the loop that
      appends one cleaned word per split word. */
  method HandleValidate(decoded: Result<string>) returns (r: Response)
    ensures r == Validate(decoded)
  {
    if decoded.Err? {
      return Response(StatusInternalServerError, ErrorBody(decoded.message + "\n"));
    }
    var body := decoded.value;
    if |body| > MaxChirpLength {
      return Response(StatusBadRequest, ErrorBody(TooLong));
    }
    var words := Split(body, Space);
    var cleanedWords: seq<string> := [];
    for i := 0 to |words|
      invariant cleanedWords == MapTokens(words[..i])
    {
      assert words[..i + 1][..i] == words[..i];
      if Contains(BannedWords, ToLower(words[i])) {
        cleanedWords := cleanedWords + [Mask];
      } else {
        cleanedWords := cleanedWords + [words[i]];
      }
    }
    assert words[..|words|] == words;
    r := Response(StatusOK, CleanedBody(Join(cleanedWords, Space)));
  }

  /** A word is changed by cleaning exactly when it is banned. */
  lemma MapTokenChangesExactlyBanned(word: string)
    ensures MapToken(word) != word <==> IsBanned(word)
    ensures IsBanned(word) ==> MapToken(word) == Mask
  {
  }

  /** The mask is not itself a banned word, and masking a masked word changes
      nothing. */
  lemma MapTokenIdempotent(word: string)
    ensures MapToken(MapToken(word)) == MapToken(word)
  {
  }

  /** Cleaning leaves a body unchanged exactly when none of its words is
      banned; this holds with the empty words that consecutive spaces give. */
  lemma {:induction false} CleanUnchangedIff(body: string)
    ensures Clean(body) == body
        <==> forall i :: 0 <= i < |Split(body, Space)| ==> !IsBanned(Split(body, Space)[i])
  {
    var words := Split(body, Space);
    if forall i :: 0 <= i < |words| ==> !IsBanned(words[i]) {
      assert MapTokens(words) == words;
      JoinSplit(body, Space);
    }
    if Clean(body) == body {
      forall i | 0 <= i < |words| ensures !IsBanned(words[i]) {
        MapTokenChangesExactlyBanned(words[i]);
      }
    }
  }

  /** Cleaning a cleaned body changes nothing. */
  lemma {:induction false} CleanIdempotent(body: string)
    ensures Clean(Clean(body)) == Clean(body)
  {
    var cleaned := Clean(body);
    var words := Split(cleaned, Space);
    forall i | 0 <= i < |words| ensures !IsBanned(words[i]) {
    }
    CleanUnchangedIff(cleaned);
  }

  /** A body of at most 140 bytes with no banned word is accepted and comes
      back unchanged. */
  lemma {:induction false} ValidateKeepsCleanBody(body: string)
    requires |body| <= MaxChirpLength
    requires forall i :: 0 <= i < |Split(body, Space)| ==> !IsBanned(Split(body, Space)[i])
    ensures Validate(Ok(body)) == Response(StatusOK, CleanedBody(body))
  {
    CleanUnchangedIff(body);
  }

  /** Whether a word is banned depends only on its lower-case form. */
  lemma BannedIgnoresCase(word: string)
    ensures IsBanned(word) <==> IsBanned(ToLower(word))
  {
  }

  /** Word matching ignores case but not punctuation. */
  lemma BannedExamples()
    ensures IsBanned("Fornax") && IsBanned("SHARBERT") && IsBanned("kerfuffle")
    ensures !IsBanned("fornax!") && !IsBanned(Mask) && !IsBanned("")
  {
  }
}
