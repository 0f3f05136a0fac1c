/** `getNitro` of index.js: Discord's `premiumType` number to a Nitro name. */
module Nitro {
  import opened Wrappers

  /** The object literal that `getNitro` indexes: type 0 maps to `null`. */
  const NITRO_NAMES: map<int, Option<string>> := map[
    0 := None,
    1 := Some("nitro_classic"),
    2 := Some("nitro_boost"),
    3 := Some("nitro_basic")
  ]

  /**
   * `getNitro(type)`: the entry for `type`, where a key the literal lacks
   * (and a missing `premiumType`) gives `undefined` and `|| null` turns it
   * into `null`.
   */
  function NitroName(premiumType: Option<int>): (r: Option<string>)
    ensures r == Some("nitro_classic") <==> premiumType == Some(1)
    ensures r == Some("nitro_boost") <==> premiumType == Some(2)
    ensures r == Some("nitro_basic") <==> premiumType == Some(3)
    ensures r == None <==> premiumType !in {Some(1), Some(2), Some(3)}
  {
    if premiumType.Some? && premiumType.value in NITRO_NAMES then NITRO_NAMES[premiumType.value] else None
  }
}
