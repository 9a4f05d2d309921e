/** The id formats of specflow/scripts/utils/ids.js: `UC-`, `AC-` or `T-`
    followed by exactly two ASCII digits (`/^UC-\d{2}$/u` and its siblings;
    `\d` means `[0-9]` even under the `u` flag, and `$` only matches at the
    very end). */
module Ids {

  predicate IsDigit(c: char) {
    '0' <= c <= '9'
  }

  /** `^<prefix>\d{2}$`. */
  predicate MatchesTwoDigitId(prefix: string, value: string) {
    |value| == |prefix| + 2 && prefix <= value
    && IsDigit(value[|prefix|]) && IsDigit(value[|prefix| + 1])
  }

  predicate IsUseCaseId(value: string)
    ensures IsUseCaseId(value) ==> |value| == 5
  {
    MatchesTwoDigitId("UC-", value)
  }

  predicate IsAcceptanceCriteriaId(value: string)
    ensures IsAcceptanceCriteriaId(value) ==> |value| == 5
  {
    MatchesTwoDigitId("AC-", value)
  }

  predicate IsTaskId(value: string)
    ensures IsTaskId(value) ==> |value| == 4
  {
    MatchesTwoDigitId("T-", value)
  }

  function DigitChar(d: nat): char
    requires d < 10
  {
    ['0', '1', '2', '3', '4', '5', '6', '7', '8', '9'][d]
  }

  function DigitValue(c: char): nat
    requires IsDigit(c)
  {
    (c as int - '0' as int) as nat
  }

  /** The id with number `n`, zero-padded to two digits: `FormatId("UC-", 7)`
      is "UC-07". */
  function FormatId(prefix: string, n: nat): string
    requires n < 100
  {
    prefix + [DigitChar(n / 10), DigitChar(n % 10)]
  }

  /** The number an id carries. */
  function IdNumber(prefix: string, value: string): (n: nat)
    requires MatchesTwoDigitId(prefix, value)
    ensures n < 100
  {
    10 * DigitValue(value[|prefix|]) + DigitValue(value[|prefix| + 1])
  }

  lemma DigitRoundTrip(d: nat)
    requires d < 10
    ensures IsDigit(DigitChar(d)) && DigitValue(DigitChar(d)) == d
  {
  }

  /** Every number below 100 formats to an id of the format, which carries
      that number back. */
  lemma FormatIdRoundTrip(prefix: string, n: nat)
    requires n < 100
    ensures MatchesTwoDigitId(prefix, FormatId(prefix, n))
    ensures IdNumber(prefix, FormatId(prefix, n)) == n
  {
    DigitRoundTrip(n / 10);
    DigitRoundTrip(n % 10);
    assert FormatId(prefix, n)[|prefix|] == DigitChar(n / 10);
    assert FormatId(prefix, n)[|prefix| + 1] == DigitChar(n % 10);
  }

  /** Every id of the format is the formatting of its own number. */
  lemma IdIsFormatted(prefix: string, value: string)
    requires MatchesTwoDigitId(prefix, value)
    ensures FormatId(prefix, IdNumber(prefix, value)) == value
  {
    var hi := DigitValue(value[|prefix|]);
    var lo := DigitValue(value[|prefix| + 1]);
    assert DigitChar(hi) == value[|prefix|];
    assert DigitChar(lo) == value[|prefix| + 1];
    var n := IdNumber(prefix, value);
    assert n / 10 == hi && n % 10 == lo;
    assert value == prefix + [value[|prefix|], value[|prefix| + 1]];
  }

  /** The use-case ids are exactly "UC-00" … "UC-99". */
  lemma UseCaseIdsAreNumbered(value: string)
    ensures IsUseCaseId(value) <==> exists n: nat :: n < 100 && value == FormatId("UC-", n)
  {
    if IsUseCaseId(value) {
      IdIsFormatted("UC-", value);
    }
    if exists n: nat :: n < 100 && value == FormatId("UC-", n) {
      var n: nat :| n < 100 && value == FormatId("UC-", n);
      FormatIdRoundTrip("UC-", n);
    }
  }

  /** The acceptance-criterion ids are exactly "AC-00" … "AC-99". */
  lemma AcceptanceCriteriaIdsAreNumbered(value: string)
    ensures IsAcceptanceCriteriaId(value) <==> exists n: nat :: n < 100 && value == FormatId("AC-", n)
  {
    if IsAcceptanceCriteriaId(value) {
      IdIsFormatted("AC-", value);
    }
    if exists n: nat :: n < 100 && value == FormatId("AC-", n) {
      var n: nat :| n < 100 && value == FormatId("AC-", n);
      FormatIdRoundTrip("AC-", n);
    }
  }

  /** The task ids are exactly "T-00" … "T-99". */
  lemma TaskIdsAreNumbered(value: string)
    ensures IsTaskId(value) <==> exists n: nat :: n < 100 && value == FormatId("T-", n)
  {
    if IsTaskId(value) {
      IdIsFormatted("T-", value);
    }
    if exists n: nat :: n < 100 && value == FormatId("T-", n) {
      var n: nat :| n < 100 && value == FormatId("T-", n);
      FormatIdRoundTrip("T-", n);
    }
  }

  /** The three formats never share an id. */
  lemma FormatsAreDisjoint(value: string)
    ensures !(IsUseCaseId(value) && IsAcceptanceCriteriaId(value))
    ensures !(IsUseCaseId(value) && IsTaskId(value))
    ensures !(IsAcceptanceCriteriaId(value) && IsTaskId(value))
  {
    if IsUseCaseId(value) {
      assert value[0] == 'U';
    }
    if IsAcceptanceCriteriaId(value) {
      assert value[0] == 'A';
    }
  }

  /** `assertValidId`: throwing the given message, or returning normally. */
  datatype Verdict = Valid | Thrown(message: string)

  function AssertValidId(value: string, validator: string -> bool, message: string): (r: Verdict)
    ensures r.Valid? <==> validator(value)
    ensures r.Thrown? ==> r.message == message
  {
    if !validator(value) then Thrown(message) else Valid
  }
}
