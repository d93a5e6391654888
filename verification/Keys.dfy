/** Decoded keys under the comparator. */
module Keys {
  /** Every countable strict total order embeds in the rationals, so nothing about the order of
      keys is lost. */
  type Key = real
}
