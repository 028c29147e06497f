/**
 * The decode loop of `evaluate`: starting from `[start]`, the decoder is fed
 * its own last word and its hidden state, one word is drawn per step, and
 * decoding stops at `[end]` or after `max_length` words.
 *
 * The network and the categorical sampling are one function `decoder`:
 * given the word fed in, the hidden state and the step number (which stands
 * for the random draw of that step), it returns the drawn word and the new
 * hidden state. `H` is the hidden state's type.
 */
module CaptionDecode {
  import opened CaptionText

  const MaxLength: nat := 40

  /** The words and the hidden state after `n` free-running steps: the decoder
      fed `[start]` first, then each word it drew, whatever the word. */
  function Feed<H>(decoder: (string, H, nat) -> (string, H), h0: H, n: nat): (r: (seq<string>, H))
    ensures |r.0| == n
  {
    if n == 0 then ([], h0)
    else
      var (words, h) := Feed(decoder, h0, n - 1);
      var input := if n == 1 then StartToken else words[n - 2];
      var (w, h') := decoder(input, h, n - 1);
      (words + [w], h')
  }

  /** The first `n` words drawn when running free. */
  function Predictions<H>(decoder: (string, H, nat) -> (string, H), h0: H, n: nat): (ws: seq<string>)
    ensures |ws| == n
  {
    Feed(decoder, h0, n).0
  }

  /** What a decoding of `evaluate` is: at most `max_length` words, no `[end]`
      among them, exactly the words drawn so far, and stopped either at the
      length limit or because the next word drawn is `[end]`. */
  ghost predicate IsDecoding<H>(decoder: (string, H, nat) -> (string, H), h0: H, result: seq<string>) {
    && |result| <= MaxLength
    && EndToken !in result
    && result == Predictions(decoder, h0, |result|)
    && (|result| == MaxLength || Predictions(decoder, h0, |result| + 1)[|result|] == EndToken)
  }

  /** `evaluate`'s loop. The hidden state is updated before the `[end]` test,
      as in the program; the word fed in next is the word just drawn. */
  method Evaluate<H>(decoder: (string, H, nat) -> (string, H), h0: H) returns (result: seq<string>)
    ensures |result| <= MaxLength
    ensures EndToken !in result
    ensures result == Predictions(decoder, h0, |result|)
    ensures |result| == MaxLength || Predictions(decoder, h0, |result| + 1)[|result|] == EndToken
  {
    var hidden := h0;
    var decInput := StartToken;
    result := [];
    for i := 0 to MaxLength
      invariant |result| == i
      invariant (result, hidden) == Feed(decoder, h0, i)
      invariant decInput == if i == 0 then StartToken else result[i - 1]
      invariant EndToken !in result
    {
      var (predicted, h) := decoder(decInput, hidden, i);
      hidden := h;
      if predicted == EndToken {
        return;
      }
      result := result + [predicted];
      decInput := predicted;
    }
  }

  /** Running longer only extends the words drawn. */
  lemma {:induction false} PredictionsPrefix<H>(decoder: (string, H, nat) -> (string, H), h0: H, m: nat, n: nat)
    requires m <= n
    ensures Predictions(decoder, h0, n)[..m] == Predictions(decoder, h0, m)
    decreases n
  {
    if m < n {
      PredictionsPrefix(decoder, h0, m, n - 1);
      var ws := Predictions(decoder, h0, n - 1);
      assert Predictions(decoder, h0, n) == ws + [Feed(decoder, h0, n).0[n - 1]];
      assert (ws + [Feed(decoder, h0, n).0[n - 1]])[..m] == ws[..m];
    }
  }

  /** The word drawn at step `i` is the same in every longer run. */
  lemma PredictionAt<H>(decoder: (string, H, nat) -> (string, H), h0: H, i: nat, n: nat)
    requires i < n
    ensures Predictions(decoder, h0, n)[i] == Predictions(decoder, h0, i + 1)[i]
  {
    PredictionsPrefix(decoder, h0, i + 1, n);
    assert Predictions(decoder, h0, n)[..i + 1][i] == Predictions(decoder, h0, n)[i];
  }

  /** No decoding is shorter than another: a shorter one stopped at a drawn
      `[end]`, which the longer one would then contain. */
  lemma DecodingNotShorter<H>(decoder: (string, H, nat) -> (string, H), h0: H, r1: seq<string>, r2: seq<string>)
    requires IsDecoding(decoder, h0, r1) && IsDecoding(decoder, h0, r2)
    ensures |r1| >= |r2|
  {
    if |r1| < |r2| {
      PredictionAt(decoder, h0, |r1|, |r2|);
    }
  }

  /** The decoding is determined by the decoder and the initial state: there
      is only one, so `Evaluate`'s contract pins its result down. */
  lemma DecodingUnique<H>(decoder: (string, H, nat) -> (string, H), h0: H, r1: seq<string>, r2: seq<string>)
    requires IsDecoding(decoder, h0, r1) && IsDecoding(decoder, h0, r2)
    ensures r1 == r2
  {
    DecodingNotShorter(decoder, h0, r1, r2);
    DecodingNotShorter(decoder, h0, r2, r1);
  }
}
