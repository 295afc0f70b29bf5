/**
 * The `inproject:` search keyword (`CirrusSearchInProjectFeature::parseValue`):
 * the value is split on `|` into at most 33 pieces; more than 32 pieces raise the
 * too-many-conditions warning and only the first 32 are kept.
 */
module InProject {
  import opened Bytes

  /** `MAX_CONDITIONS`: the most project names one keyword may carry. */
  const MAX_CONDITIONS: nat := 32

  /** The `['projects' => ...]` answer, and whether the warning was added. */
  datatype Parsed = Parsed(projects: seq<Bytes>, tooManyConditions: bool)

  /** `parseValue`. */
  function ParseValue(value: Bytes): (r: Parsed)
    ensures |r.projects| <= MAX_CONDITIONS
  {
    var values := SplitLimit(value, PIPE, MAX_CONDITIONS + 1);
    if |values| > MAX_CONDITIONS then Parsed(values[..MAX_CONDITIONS], true)
    else Parsed(values, false)
  }

  /** The warning is added exactly when the value has more than 32 `|`-separated pieces. */
  lemma ParseValueWarnsIff(value: Bytes)
    ensures ParseValue(value).tooManyConditions <==> |Split(value, PIPE)| > MAX_CONDITIONS
  {
    SplitLimitIsSplit(value, PIPE, MAX_CONDITIONS + 1);
  }

  /** Up to 32 pieces: the answer is the whole split, and joining it gives the value back. */
  lemma ParseValueKeepsAll(value: Bytes)
    requires |Split(value, PIPE)| <= MAX_CONDITIONS
    ensures ParseValue(value) == Parsed(Split(value, PIPE), false)
    ensures Join(ParseValue(value).projects, PIPE) == value
  {
    SplitLimitIsSplit(value, PIPE, MAX_CONDITIONS + 1);
    JoinSplit(value, PIPE);
  }

  /**
   * More than 32 pieces: the answer is the first 32 pieces; the rest of the
   * value, held by the 33rd piece of the limited split, is dropped.
   */
  lemma ParseValueTruncates(value: Bytes)
    requires |Split(value, PIPE)| > MAX_CONDITIONS
    ensures ParseValue(value) == Parsed(Split(value, PIPE)[..MAX_CONDITIONS], true)
    ensures var limited := SplitLimit(value, PIPE, MAX_CONDITIONS + 1);
      |limited| == MAX_CONDITIONS + 1 &&
      limited[MAX_CONDITIONS] == Join(Split(value, PIPE)[MAX_CONDITIONS..], PIPE)
  {
    var full := Split(value, PIPE);
    SplitLimitIsSplit(value, PIPE, MAX_CONDITIONS + 1);
    if |full| == MAX_CONDITIONS + 1 {
      assert full[MAX_CONDITIONS..] == [full[MAX_CONDITIONS]];
    }
  }

  /** Every project name in the answer is free of the separator. */
  lemma ParseValueNamesHaveNoPipe(value: Bytes)
    ensures SeparatorFree(ParseValue(value).projects, PIPE)
  {
    var full := Split(value, PIPE);
    SplitPiecesAreSeparatorFree(value, PIPE);
    if |full| <= MAX_CONDITIONS {
      ParseValueKeepsAll(value);
    } else {
      ParseValueTruncates(value);
    }
  }
}
