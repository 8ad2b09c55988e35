/** The PASV reply of section 4.1.2 of RFC 959: `(h1,h2,h3,h4,p1,p2)`. */
module Pasv {
  import opened Text

  /** `(port >> 8) & 0xff` and `port & 0xff` of a 16-bit port. */
  function PortHigh(port: nat): (b: nat)
    requires port < 0x1_0000
    ensures b < 256
  {
    port / 256
  }

  function PortLow(port: nat): (b: nat)
    ensures b < 256
  {
    ToUint8(port)
  }

  /** The two port bytes give the port back. */
  lemma PortBytes(port: nat)
    requires port < 0x1_0000
    ensures PortHigh(port) * 256 + PortLow(port) == port
  {
  }

  /** `(a,b,c,d,hi,lo)` from the control connection's local IPv4 address and
      the data acceptor's port. */
  function PasvTuple(ip: seq<byte>, port: nat): (s: string)
    requires |ip| == 4 && port < 0x1_0000
    ensures |s| > 0 && s[0] == '(' && s[|s| - 1] == ')'
  {
    "(" + (NatToString(ip[0] as nat) + ("," + (NatToString(ip[1] as nat) + ("," + (NatToString(ip[2] as nat)
    + ("," + (NatToString(ip[3] as nat) + ("," + (NatToString(PortHigh(port)) + ("," + (NatToString(PortLow(port))
    + ")")))))))))))
  }

  const PasvLead: string := "Entering passive mode "

  /** The text of the 227 reply. */
  function PasvText(ip: seq<byte>, port: nat): (s: string)
    requires |ip| == 4 && port < 0x1_0000
    ensures |s| > |PasvLead| && s[..|PasvLead|] == PasvLead
    ensures s[|PasvLead|] == '(' && s[|s| - 1] == ')'
  {
    PasvLead + PasvTuple(ip, port)
  }
}
