/** What a login is configured to do about the sessions its user already has. */
module LoginPolicy {
  import opened Js

  datatype Policy = Single | Multiple | MutualExclusion

  /** How many of n listed sessions make way for one more: those past the limit, and never more than n. */
  function Overflow(n: nat, maxSame: int): (r: nat)
    ensures r <= n && (n > 0 ==> n - r <= Max(maxSame, 1) - 1)
  {
    var overflow := n - maxSame + 1;
    if overflow <= 0 then 0 else if overflow > n then n else overflow
  }

  function LockKey(user: string, device: Option<string>): string {
    "login:" + user + ":" + (if Truthy(device) then device.value else "unknown")
  }
}
