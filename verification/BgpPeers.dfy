/** The kinds of BGP peers (bgpd/bgpd.h). */
module BgpPeers {
  datatype PeerSort = Ibgp | Ebgp | Internal | Confed
}
