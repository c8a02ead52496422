/**
 * `internal/util/util.go`, CIDR handling: the address of a CIDR and the
 * validation of CIDR lists.
 */
module Util {
  import opened Wrappers
  import opened Net
  import opened Model

  // ---------------------------------------------------------------- single CIDRs

  /** `GetIPFromCIDR`: the address of a CIDR as `IP.String` prints it, prefix dropped. */
  function GetIPFromCIDR(cidr: string): (r: Result<string, Error>)
    ensures r.Success? <==> ParseCidr(cidr).Some?
    ensures r.Success? ==> r.value == FormatAddr(ParseCidr(cidr).value.addr)
    ensures r.Failure? ==> r.error == CidrParse(cidr)
  {
    match ParseCidr(cidr)
    case None => Failure(CidrParse(cidr))
    case Some(c) => Success(FormatAddr(c.addr))
  }

  /** The address written in an IPv4 CIDR comes back as written, not masked to its network. */
  lemma GetIPFromCIDRV4(x: U32, n: nat)
    requires n <= 32
    ensures GetIPFromCIDR(FormatCidr(Cidr(V4(x), n))) == Success(FormatV4(x))
  {
    ParseCidrFormatV4(x, n);
  }

  /** `ValidateCIDR`: true exactly when `GetIPFromCIDR` would succeed. */
  function ValidateCIDR(cidr: string): (ok: bool)
    ensures ok <==> GetIPFromCIDR(cidr).Success?
  {
    ParseCidr(cidr).Some?
  }

  /** What `ValidateCIDRList` accepts: every entry parses, except empty ones when `allowEmpty` holds. */
  predicate CidrListOk(cidrs: seq<string>, allowEmpty: bool)
  {
    forall i :: 0 <= i < |cidrs| ==> (allowEmpty && cidrs[i] == "") || ValidateCIDR(cidrs[i])
  }

  /** `ValidateCIDRList`: stops at the first entry that fails. */
  method ValidateCIDRList(cidrs: seq<string>, allowEmpty: bool) returns (ok: bool)
    ensures ok <==> CidrListOk(cidrs, allowEmpty)
  {
    for i := 0 to |cidrs|
      invariant CidrListOk(cidrs[..i], allowEmpty)
    {
      if allowEmpty {
        if |cidrs[i]| > 0 {
          if !ValidateCIDR(cidrs[i]) {
            return false;
          }
        }
      } else {
        if !ValidateCIDR(cidrs[i]) {
          return false;
        }
      }
      assert cidrs[..i + 1] == cidrs[..i] + [cidrs[i]];
    }
    assert cidrs[..|cidrs|] == cidrs;
    return true;
  }

  /** `ValidateAllowedIPs`: the strict mode, every entry must parse. */
  method ValidateAllowedIPs(cidrs: seq<string>) returns (ok: bool)
    ensures ok <==> forall i :: 0 <= i < |cidrs| ==> ParseCidr(cidrs[i]).Some?
  {
    ok := ValidateCIDRList(cidrs, false);
  }

  /** `ValidateExtraAllowedIPs`: empty entries are skipped, the others must parse. */
  method ValidateExtraAllowedIPs(cidrs: seq<string>) returns (ok: bool)
    ensures ok <==> forall i :: 0 <= i < |cidrs| ==> cidrs[i] == "" || ParseCidr(cidrs[i]).Some?
  {
    ok := ValidateCIDRList(cidrs, true);
  }
}
