/**
 * The proposal card's requested amount: the asset string with its last 13
 * characters (`.` + eight decimals + ` WAX`) cut off and ` WAX` put back.
 */
module ProposalGrid {
  import opened Text

  /** Characters `slice(0, -13)` drops from the end. */
  const DroppedSuffixLength: nat := 13

  /** The unit appended to the whole-number part. */
  const WaxSuffix: string := " WAX"

  /** `total_requested_funds.slice(0, -13) + ' WAX'`. */
  function ReadableAmount(totalRequestedFunds: string): (r: string)
    ensures |r| >= |WaxSuffix| && r[|r| - |WaxSuffix|..] == WaxSuffix
  {
    Slice(totalRequestedFunds, 0, -(DroppedSuffixLength as int)) + WaxSuffix
  }

  /** `max(0, n - 13)`. */
  function KeptLength(n: nat): nat {
    if n < DroppedSuffixLength then 0 else n - DroppedSuffixLength
  }

  /** What precedes " WAX" is the input's prefix of length `max(0, len - 13)`. */
  lemma ReadableAmountKeepsPrefix(funds: string)
    ensures ReadableAmount(funds) == funds[..KeptLength(|funds|)] + WaxSuffix
  {
  }

  /** An input of 13 characters or fewer leaves only " WAX". */
  lemma ShortAmountIsBareUnit(funds: string)
    requires |funds| <= DroppedSuffixLength
    ensures ReadableAmount(funds) == WaxSuffix
  {
  }

  /**
   * An asset string `<whole>.<8 decimals> WAX` is shown as `<whole> WAX`
   * (whatever characters the two parts hold).
   */
  lemma AssetShownAsWholeWax(whole: string, decimals: string)
    requires |decimals| == 8
    ensures ReadableAmount(whole + "." + decimals + WaxSuffix) == whole + WaxSuffix
  {
  }
}
