/**
 * Chirp moderation: the profanity filter `replaceProfane`, the 140-byte gate
 * `validateChirp`, and the two places that use them (the validate endpoint and
 * chirp creation).
 *
 * The repository defines `replaceProfane` twice with the same text, in
 * chirps.go and in validate.go (one Go package, so it would not compile as
 * shown). The model has one definition; both call sites use it.
 */
module Moderation {
  import opened GoStrings

  /** The longest chirp body accepted, in bytes. */
  const MaxChirpLength := 140

  /** What a banned word is replaced by. */
  const Mask := "****"

  /** The words the filter bans, compared after lower-casing. */
  predicate IsProfane(word: string) {
    word == "kerfuffle" || word == "sharbert" || word == "fornax"
  }

  /** What the filter does to one space-separated field: a field whose
      lower-cased form is banned becomes the mask, any other field is kept
      exactly as it was (original case, attached punctuation and all). */
  function CleanWord(w: string): (r: string)
    ensures IsProfane(ToLower(w)) ==> r == Mask && |r| < |w|
    ensures !IsProfane(ToLower(w)) ==> r == w
  {
    if IsProfane(ToLower(w)) then Mask else w
  }

  /** CleanWord applied to every field. */
  function CleanWords(ws: seq<string>): (rs: seq<string>)
    ensures |rs| == |ws|
    ensures forall i | 0 <= i < |ws| :: rs[i] == CleanWord(ws[i])
  {
    seq(|ws|, i requires 0 <= i < |ws| => CleanWord(ws[i]))
  }

  /** The string `replaceProfane` leaves behind: split on " ", clean every
      field, join with " ". */
  function Cleaned(s: string): string {
    Join(CleanWords(Split(s, ' ')), ' ')
  }

  /** A Go string variable reached through a pointer (`*string`). */
  class StringVar {
    var value: string

    constructor (s: string)
      ensures value == s
    {
      value := s;
    }
  }

  /** `replaceProfane(s *string)`: splits `*s` on " ", overwrites each banned
      field of the split slice with the mask, and stores the re-joined string
      back through the pointer. */
  method ReplaceProfane(s: StringVar)
    modifies s
    ensures s.value == Cleaned(old(s.value))
  {
    var parts := Split(s.value, ' ');
    var splitted := new string[|parts|](i requires 0 <= i < |parts| => parts[i]);
    var i := 0;
    while i < splitted.Length
      invariant 0 <= i <= splitted.Length
      invariant forall k | 0 <= k < i :: splitted[k] == CleanWord(parts[k])
      invariant forall k | i <= k < splitted.Length :: splitted[k] == parts[k]
    {
      var item := ToLower(splitted[i]);
      if item == "kerfuffle" || item == "sharbert" || item == "fornax" {
        splitted[i] := Mask;
      }
      assert splitted[i] == CleanWord(parts[i]);
      i := i + 1;
    }
    assert splitted[..] == CleanWords(parts);
    s.value := Join(splitted[..], ' ');
  }

  /** `validateChirp(body *string) bool`: a body longer than 140 bytes is
      refused and left alone; any other body is accepted and cleaned in place. */
  method ValidateChirp(body: StringVar) returns (ok: bool)
    modifies body
    ensures ok <==> |old(body.value)| <= MaxChirpLength
    ensures ok ==> body.value == Cleaned(old(body.value))
    ensures !ok ==> body.value == old(body.value)
  {
    if |body.value| > MaxChirpLength {
      return false;
    }
    ReplaceProfane(body);
    return true;
  }

  /** The outcome of checking a chirp body: the cleaned body to answer with
      or store, or the "Chirp is too long" error. */
  datatype Moderated = Accepted(body: string) | TooLong {
    /** The status the validate endpoint answers with. Chirp creation answers
        an accepted body only after the insert, which is not part of this
        model; a refused body gets 400 at both places. */
    function ValidateStatus(): int {
      if Accepted? then 200 else 400
    }
  }

  /** `handlerValidateChirp` once the request body is decoded: it applies its
      own length gate and then calls `replaceProfane` on the body. */
  method HandleValidateChirp(body: string) returns (resp: Moderated)
    ensures |body| > MaxChirpLength ==> resp == TooLong
    ensures |body| <= MaxChirpLength ==> resp == Accepted(Cleaned(body))
  {
    var data := new StringVar(body);
    if |data.value| > MaxChirpLength {
      return TooLong;
    }
    ReplaceProfane(data);
    resp := Accepted(data.value);
  }

  /** The body check in `handlerCreateChirp`: `validateChirp(&data.Body)`
      decides between the 400 answer and the body that is stored. */
  method CreateChirpBody(body: string) returns (resp: Moderated)
    ensures |body| > MaxChirpLength ==> resp == TooLong
    ensures |body| <= MaxChirpLength ==> resp == Accepted(Cleaned(body))
  {
    var data := new StringVar(body);
    var ok := ValidateChirp(data);
    if !ok {
      return TooLong;
    }
    resp := Accepted(data.value);
  }

  /** No field of a cleaned string contains a space: the mask has none and
      a field of a split has none. */
  lemma CleanWordsSpaceFree(ws: seq<string>)
    requires forall i | 0 <= i < |ws| :: ' ' !in ws[i]
    ensures forall i | 0 <= i < |ws| :: ' ' !in CleanWords(ws)[i]
  {
  }

  /** Field by field: the cleaned string has exactly as many " "-separated
      fields as the input, field i is the mask when field i of the input,
      lower-cased, is a banned word, and is the input's field i otherwise. */
  lemma {:induction false} CleanedFields(s: string)
    ensures |Split(Cleaned(s), ' ')| == |Split(s, ' ')|
    ensures forall i | 0 <= i < |Split(s, ' ')| ::
      Split(Cleaned(s), ' ')[i] ==
        (if IsProfane(ToLower(Split(s, ' ')[i])) then Mask else Split(s, ' ')[i])
  {
    var fields := Split(s, ' ');
    CleanWordsSpaceFree(fields);
    SplitJoin(CleanWords(fields), ' ');
  }

  /** Lower-casing keeps the length, so a field that lower-cases to a banned
      word has that word's length (6 to 9 bytes); the mask is never one. */
  lemma MaskIsClean()
    ensures !IsProfane(ToLower(Mask))
  {
  }

  /** No banned word survives the filter, whatever its case. */
  lemma NothingProfaneLeft(s: string)
    ensures forall i | 0 <= i < |Split(Cleaned(s), ' ')| ::
      !IsProfane(ToLower(Split(Cleaned(s), ' ')[i]))
  {
    CleanedFields(s);
    MaskIsClean();
  }

  /** Cleaning twice is cleaning once. */
  lemma CleanedIdempotent(s: string)
    ensures Cleaned(Cleaned(s)) == Cleaned(s)
  {
    var fields := Split(s, ' ');
    var once := CleanWords(fields);
    CleanWordsSpaceFree(fields);
    SplitJoin(once, ' ');
    MaskIsClean();
    assert CleanWords(once) == once;
  }

  /** The filter changes a string exactly when one of its fields, lower-cased,
      is a banned word; in particular `""` and text without banned words pass
      through unchanged. */
  lemma CleanedUnchanged(s: string)
    ensures Cleaned(s) == s <==>
      forall i | 0 <= i < |Split(s, ' ')| :: !IsProfane(ToLower(Split(s, ' ')[i]))
  {
    var fields := Split(s, ' ');
    JoinSplit(s, ' ');
    if forall i | 0 <= i < |fields| :: !IsProfane(ToLower(fields[i])) {
      assert CleanWords(fields) == fields;
    } else {
      var i :| 0 <= i < |fields| && IsProfane(ToLower(fields[i]));
      CleanedFields(s);
      assert Split(Cleaned(s), ' ')[i] == Mask != fields[i];
    }
  }

  /** The cleaned string is never longer than the input: each replacement
      turns a 6 to 9 byte word into 4 bytes. */
  lemma CleanedNotLonger(s: string)
    ensures |Cleaned(s)| <= |s|
  {
    var fields := Split(s, ' ');
    JoinNotLonger(CleanWords(fields), fields, ' ');
    JoinSplit(s, ' ');
  }

  /** A body that passes the 140-byte gate still fits after cleaning, so the
      stored chirp respects the limit. */
  lemma AcceptedBodyFits(body: string)
    requires |body| <= MaxChirpLength
    ensures |Cleaned(body)| <= MaxChirpLength
  {
    CleanedNotLonger(body);
  }

  /** The empty body stays empty. */
  lemma CleanedEmpty()
    ensures Cleaned("") == ""
  {
  }

  /** The filter works on each space-separated part on its own: cleaning
      `x + " " + y` is cleaning `x` and `y` and joining them with a space. */
  lemma CleanedConcat(x: string, y: string)
    ensures Cleaned(x + " " + y) == Cleaned(x) + " " + Cleaned(y)
  {
    var fx, fy := Split(x, ' '), Split(y, ' ');
    assert Split(x + " " + y, ' ') == fx + fy by {
      SplitConcat(x, y, ' ');
    }
    assert CleanWords(fx + fy) == CleanWords(fx) + CleanWords(fy);
    JoinConcat(CleanWords(fx), CleanWords(fy), ' ');
  }

  /** A single word (no space) is cleaned as one field. */
  lemma CleanedWord(w: string)
    requires ' ' !in w
    ensures Cleaned(w) == CleanWord(w)
  {
    JoinSplit(w, ' ');
  }

  /** A banned word is masked whatever its case. */
  lemma CleanedMasksAnyCase()
    ensures Cleaned("KerFuffle") == "****"
  {
    assert IsProfane(ToLower("KerFuffle")) by {
      assert ToLower("KerFuffle") == "kerfuffle";
    }
    assert ' ' !in "KerFuffle";
    CleanedWord("KerFuffle");
  }

  /** A banned word with punctuation attached is a different field and is kept. */
  lemma CleanedKeepsPunctuated()
    ensures Cleaned("Sharbert!") == "Sharbert!"
  {
    var t := "Sharbert!";
    JoinSplit(t, ' ');
    assert ' ' !in t;
    assert Split(t, ' ') == [t];
    assert ToLower(t)[8] == '!';
    CleanedUnchanged(t);
  }
}
