/** The address shortening the pages use to display wallet addresses. */
module Contracts {
  import opened Js

  /** `formatAddress`: the first six characters, `...`, then the last four. */
  function FormatAddress(address: string): (r: string)
    ensures var head := if |address| < 6 then |address| else 6;
      var tail := if |address| < 4 then |address| else 4;
      && |r| == head + 3 + tail
      && r[..head] == address[..head]
      && r[head..head + 3] == "..."
      && r[|r| - tail..] == address[|address| - tail..]
  {
    Slice(address, 0, 6) + "..." + Slice(address, -4, |address|)
  }

  /** A full 42-character address, or anything of six characters or more, shortens to 13 characters. */
  lemma FormatAddressLength(address: string)
    requires |address| >= 6
    ensures |FormatAddress(address)| == 13
  {
  }

  /**
   * Two addresses of at least six characters display alike exactly when they
   * agree on their first six and their last four characters.
   */
  lemma FormatAddressSameDisplay(a: string, b: string)
    requires |a| >= 6 && |b| >= 6
    ensures FormatAddress(a) == FormatAddress(b) <==>
      a[..6] == b[..6] && a[|a| - 4..] == b[|b| - 4..]
  {
    var ra, rb := FormatAddress(a), FormatAddress(b);
    if a[..6] == b[..6] && a[|a| - 4..] == b[|b| - 4..] {
      assert ra == a[..6] + "..." + a[|a| - 4..];
      assert rb == b[..6] + "..." + b[|b| - 4..];
    }
  }
}
