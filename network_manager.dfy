/** The Android network selection that keeps the app's own sockets off the
    VPN: the process is bound to a connected, available network that is not
    a VPN, the active network first and otherwise the best of all networks
    by the order Ethernet, Wi-Fi, WiMAX, mobile. The platform's
    ConnectivityManager is modelled by its state: the active network, the
    list of all networks, the information record of each, and the network
    the process is bound to. */
module NetworkManager {
  import opened JavaLang

  /** The network type constants of android.net.ConnectivityManager. */
  const TYPE_MOBILE: int := 0
  const TYPE_WIFI: int := 1
  const TYPE_WIMAX: int := 6
  const TYPE_ETHERNET: int := 9
  const TYPE_VPN: int := 17

  /** A network handle; two handles are equal when they name the same network. */
  type Network = nat

  /** The parts of android.net.NetworkInfo the selection looks at. */
  datatype NetworkInfo = NetworkInfo(netType: int, connectedOrConnecting: bool, available: bool)

  /** getNetworkInfo: null for a null network or one the platform has no
      record of. */
  function InfoOf(infos: map<Network, NetworkInfo>, network: Option<Network>): Option<NetworkInfo>
  {
    if network.Some? && network.value in infos then Some(infos[network.value]) else None
  }

  /** isConnectedNonVpnNetwork: false for null, otherwise the network is
      not a VPN, is connected or connecting, and is available. */
  predicate IsConnectedNonVpnNetwork(info: Option<NetworkInfo>)
    ensures IsConnectedNonVpnNetwork(info) ==> info.Some? && info.value.netType != TYPE_VPN
  {
    info.Some? && info.value.netType != TYPE_VPN && info.value.connectedOrConnecting && info.value.available
  }

  /** The candidate table selectConnectedNonVpnNetwork fills while walking
      getAllNetworks: qualifying networks keyed by type, a later network
      replacing an earlier one of the same type. None stands for the
      NullPointerException raised when a listed network has no information
      record (its toString is called for the log before the test). */
  function Candidates(all: seq<Network>, infos: map<Network, NetworkInfo>): (r: Option<map<int, Network>>)
    ensures r.Some? ==> TYPE_VPN !in r.value
    decreases |all|
  {
    if all == [] then Some(map[])
    else
      match Candidates(all[..|all| - 1], infos)
      case None => None
      case Some(networks) =>
        var network := all[|all| - 1];
        if network !in infos then None
        else if IsConnectedNonVpnNetwork(Some(infos[network])) then Some(networks[infos[network].netType := network])
        else Some(networks)
  }

  /** The "best connectivity" choice among the candidates. */
  function PickByPriority(networks: map<int, Network>): (r: Option<Network>)
    ensures r.Some? ==> r.value in networks.Values
    ensures r.None? ==> forall t | t in networks :: t != TYPE_ETHERNET && t != TYPE_WIFI && t != TYPE_WIMAX && t != TYPE_MOBILE
  {
    if TYPE_ETHERNET in networks then Some(networks[TYPE_ETHERNET])
    else if TYPE_WIFI in networks then Some(networks[TYPE_WIFI])
    else if TYPE_WIMAX in networks then Some(networks[TYPE_WIMAX])
    else if TYPE_MOBILE in networks then Some(networks[TYPE_MOBILE])
    else None
  }

  /** selectConnectedNonVpnNetwork, as a function of the platform state. */
  function SelectOf(active: Option<Network>, all: seq<Network>, infos: map<Network, NetworkInfo>): Result<Network>
  {
    if IsConnectedNonVpnNetwork(InfoOf(infos, active)) then Value(active.value)
    else
      match Candidates(all, infos)
      case None => Throws(NullPointer)
      case Some(networks) =>
        match PickByPriority(networks)
        case None => Null
        case Some(network) => Value(network)
  }

  /** bindProcessToActiveNetwork, as a function of the platform state and of
      the platform's answer to bindProcessToNetwork: the exception that
      escapes, if any, and the bound network afterwards. */
  function BindOf(active: Option<Network>, all: seq<Network>, infos: map<Network, NetworkInfo>,
                  bound: Option<Network>, accepted: bool): (r: (Option<Exception>, Option<Network>))
    ensures r.1 != bound ==> accepted && r.0.None? && r.1.Some?
    ensures r.0.Some? ==> r.0.value == NullPointer
  {
    match SelectOf(active, all, infos)
    case Throws(e) => (Some(e), bound)
    case Null => (None, bound)
    case Value(network) =>
      if bound == Some(network) || !accepted then (None, bound) else (None, Some(network))
  }

  /** The platform's connectivity state. */
  class Connectivity {
    var activeNetwork: Option<Network>
    var allNetworks: seq<Network>
    var infos: map<Network, NetworkInfo>
    var boundNetwork: Option<Network>

    constructor(active: Option<Network>, all: seq<Network>, infos: map<Network, NetworkInfo>, bound: Option<Network>)
      ensures activeNetwork == active && allNetworks == all && this.infos == infos && boundNetwork == bound
    {
      activeNetwork := active;
      allNetworks := all;
      this.infos := infos;
      boundNetwork := bound;
    }

    /** bindProcessToNetwork; whether the platform accepts is its own
        decision, passed in as `accepted`. */
    method BindProcessToNetwork(network: Network, accepted: bool) returns (ok: bool)
      modifies this
      ensures ok == accepted
      ensures boundNetwork == (if accepted then Some(network) else old(boundNetwork))
      ensures activeNetwork == old(activeNetwork) && allNetworks == old(allNetworks) && infos == old(infos)
    {
      if accepted {
        boundNetwork := Some(network);
      }
      ok := accepted;
    }
  }

  class NetworkManager {
    /** m_connectivityManager: null when the system service was unavailable. */
    var connectivity: Connectivity?

    /** The field assignments of the constructor; NewNetworkManager adds
        its final bind. */
    constructor(connectivity: Connectivity?)
      ensures this.connectivity == connectivity
    {
      this.connectivity := connectivity;
    }

    /** selectConnectedNonVpnNetwork: the active network when it qualifies,
        otherwise the best qualifying network of all. */
    method SelectConnectedNonVpnNetwork() returns (r: Result<Network>)
      requires connectivity != null
      ensures r == SelectOf(connectivity.activeNetwork, connectivity.allNetworks, connectivity.infos)
    {
      var cm := connectivity;
      var activeNetwork := cm.activeNetwork;
      if IsConnectedNonVpnNetwork(InfoOf(cm.infos, activeNetwork)) {
        return Value(activeNetwork.value);
      }
      var networks: map<int, Network> := map[];
      var all := cm.allNetworks;
      var i := 0;
      while i < |all|
        invariant 0 <= i <= |all|
        invariant Candidates(all[..i], cm.infos) == Some(networks)
      {
        var network := all[i];
        assert all[..i + 1][..i] == all[..i];
        var networkInfo := InfoOf(cm.infos, Some(network));
        if networkInfo.None? {
          CandidatesFailureSticks(all, cm.infos, i + 1);
          return Throws(NullPointer);
        }
        if IsConnectedNonVpnNetwork(networkInfo) {
          networks := networks[networkInfo.value.netType := network];
        }
        i := i + 1;
      }
      assert all[..i] == all;
      if TYPE_ETHERNET in networks {
        return Value(networks[TYPE_ETHERNET]);
      } else if TYPE_WIFI in networks {
        return Value(networks[TYPE_WIFI]);
      } else if TYPE_WIMAX in networks {
        return Value(networks[TYPE_WIMAX]);
      } else if TYPE_MOBILE in networks {
        return Value(networks[TYPE_MOBILE]);
      }
      return Null;
    }

    /** bindProcessToActiveNetwork: nothing happens without a connectivity
        service, without a candidate, or when the process is already bound
        to the candidate; otherwise the process is bound to it if the
        platform accepts. A NullPointerException from the selection
        escapes. */
    method BindProcessToActiveNetwork(accepted: bool) returns (thrown: Option<Exception>)
      modifies connectivity
      ensures connectivity == null ==> thrown == None
      ensures connectivity != null ==>
        && (thrown, connectivity.boundNetwork)
           == BindOf(old(connectivity.activeNetwork), old(connectivity.allNetworks), old(connectivity.infos),
                     old(connectivity.boundNetwork), accepted)
        && connectivity.activeNetwork == old(connectivity.activeNetwork)
        && connectivity.allNetworks == old(connectivity.allNetworks)
        && connectivity.infos == old(connectivity.infos)
    {
      if connectivity == null {
        return None;
      }
      var activeNetwork := SelectConnectedNonVpnNetwork();
      if activeNetwork.Throws? {
        return Some(activeNetwork.exception);
      }
      if activeNetwork.Null? {
        return None;
      }
      if Some(activeNetwork.value) == connectivity.boundNetwork {
        return None;
      }
      var _ := connectivity.BindProcessToNetwork(activeNetwork.value, accepted);
      return None;
    }
  }

  /** `new NetworkManager(context)`: the constructor takes the connectivity
      service and binds the process before the VPN is established. The
      NullPointerException that binding can raise is not caught, so the
      constructor throws it and no manager comes into being. */
  method NewNetworkManager(connectivity: Connectivity?, accepted: bool) returns (r: Result<NetworkManager>)
    modifies connectivity
    ensures !r.Null?
    ensures r.Value? ==> fresh(r.value) && r.value.connectivity == connectivity
    ensures connectivity == null ==> r.Value?
    ensures connectivity != null ==>
      var bind := BindOf(old(connectivity.activeNetwork), old(connectivity.allNetworks),
                         old(connectivity.infos), old(connectivity.boundNetwork), accepted);
      && connectivity.boundNetwork == bind.1
      && (r.Throws? <==> bind.0.Some?)
      && (r.Throws? ==> r.exception == bind.0.value)
  {
    var manager := new NetworkManager(connectivity);
    var thrown := manager.BindProcessToActiveNetwork(accepted);
    if thrown.Some? {
      return Throws(thrown.value);
    }
    return Value(manager);
  }

  /** The preference order of the fallback choice, higher first; types
      outside the four are never chosen. */
  function Rank(netType: int): nat
  {
    if netType == TYPE_ETHERNET then 4
    else if netType == TYPE_WIFI then 3
    else if netType == TYPE_WIMAX then 2
    else if netType == TYPE_MOBILE then 1
    else 0
  }

  /** The `j`-th listed network qualifies and has type `t`. */
  ghost predicate QualifiesAs(all: seq<Network>, infos: map<Network, NetworkInfo>, j: int, t: int)
  {
    && 0 <= j < |all|
    && all[j] in infos
    && IsConnectedNonVpnNetwork(Some(infos[all[j]]))
    && infos[all[j]].netType == t
  }

  /** The `j`-th listed network is the last qualifying network of type `t`. */
  ghost predicate LastOfType(all: seq<Network>, infos: map<Network, NetworkInfo>, j: int, t: int)
  {
    QualifiesAs(all, infos, j, t) && forall k | j < k < |all| :: !QualifiesAs(all, infos, k, t)
  }

  /** A missing information record anywhere in a prefix is enough for the
      walk over the whole list to fail. */
  lemma {:induction false} CandidatesFailureSticks(all: seq<Network>, infos: map<Network, NetworkInfo>, i: nat)
    requires i <= |all| && Candidates(all[..i], infos).None?
    ensures Candidates(all, infos).None?
    decreases |all| - i
  {
    if i < |all| {
      assert all[..i + 1][..i] == all[..i];
      CandidatesFailureSticks(all, infos, i + 1);
    } else {
      assert all[..i] == all;
    }
  }

  /** What the candidate table holds: the walk fails exactly when some
      listed network has no information record; otherwise it has an entry
      for exactly the types of the qualifying networks, and the entry of
      each type is the last qualifying network of that type. */
  lemma {:induction false} CandidatesMeaning(all: seq<Network>, infos: map<Network, NetworkInfo>)
    ensures Candidates(all, infos).None? <==> exists j | 0 <= j < |all| :: all[j] !in infos
    ensures Candidates(all, infos).Some? ==>
      var networks := Candidates(all, infos).value;
      && (forall t :: t in networks <==> exists j :: QualifiesAs(all, infos, j, t))
      && (forall t | t in networks :: exists j :: LastOfType(all, infos, j, t) && networks[t] == all[j])
    decreases |all|
  {
    if all != [] {
      var front := all[..|all| - 1];
      var network := all[|all| - 1];
      CandidatesMeaning(front, infos);
      assert forall j | 0 <= j < |front| :: front[j] == all[j];
      assert forall j, t :: QualifiesAs(front, infos, j, t) ==> QualifiesAs(all, infos, j, t);
      assert forall j, t | j < |front| :: QualifiesAs(all, infos, j, t) ==> QualifiesAs(front, infos, j, t);
      if Candidates(front, infos).None? {
        var j :| 0 <= j < |front| && front[j] !in infos;
        assert all[j] !in infos;
      } else if network !in infos {
      } else {
        var networks := Candidates(front, infos).value;
        var info := infos[network];
        forall t | t in Candidates(all, infos).value
          ensures exists j :: LastOfType(all, infos, j, t) && Candidates(all, infos).value[t] == all[j]
        {
          if IsConnectedNonVpnNetwork(Some(info)) && t == info.netType {
            assert LastOfType(all, infos, |all| - 1, t);
          } else {
            var j :| LastOfType(front, infos, j, t) && networks[t] == front[j];
            assert !QualifiesAs(all, infos, |all| - 1, t);
            assert LastOfType(all, infos, j, t);
          }
        }
        forall t | exists j :: QualifiesAs(all, infos, j, t)
          ensures t in Candidates(all, infos).value
        {
          var j :| QualifiesAs(all, infos, j, t);
          if j < |front| {
            assert QualifiesAs(front, infos, j, t);
          }
        }
      }
    }
  }

  /** The chosen network is never a VPN: it always has an information record
      and passes isConnectedNonVpnNetwork, and it is the active network or
      one of the listed networks. */
  lemma SelectNeverVpn(active: Option<Network>, all: seq<Network>, infos: map<Network, NetworkInfo>)
    ensures SelectOf(active, all, infos).Value? ==>
      var network := SelectOf(active, all, infos).value;
      && IsConnectedNonVpnNetwork(InfoOf(infos, Some(network)))
      && InfoOf(infos, Some(network)).value.netType != TYPE_VPN
      && (active == Some(network) || network in all)
  {
    if !IsConnectedNonVpnNetwork(InfoOf(infos, active)) && Candidates(all, infos).Some? {
      CandidatesMeaning(all, infos);
      var networks := Candidates(all, infos).value;
      var types := [TYPE_ETHERNET, TYPE_WIFI, TYPE_WIMAX, TYPE_MOBILE];
      if PickByPriority(networks).Some? {
        var t :| t in types && t in networks && PickByPriority(networks) == Some(networks[t]);
        var j :| LastOfType(all, infos, j, t) && networks[t] == all[j];
      }
    }
  }

  /** When the active network does not qualify, the fallback choice fails
      exactly when a listed network has no information record; otherwise
      it is null exactly when no listed network qualifies with one of the
      four preferred types, and a chosen network is the last qualifying
      network of the best-ranked type present. */
  lemma SelectByPriority(active: Option<Network>, all: seq<Network>, infos: map<Network, NetworkInfo>)
    requires !IsConnectedNonVpnNetwork(InfoOf(infos, active))
    ensures SelectOf(active, all, infos).Throws? <==> exists j | 0 <= j < |all| :: all[j] !in infos
    ensures (forall j | 0 <= j < |all| :: all[j] in infos) ==>
      (SelectOf(active, all, infos).Null? <==> forall j, t | QualifiesAs(all, infos, j, t) :: Rank(t) == 0)
    ensures SelectOf(active, all, infos).Value? ==>
      exists j, t ::
        && LastOfType(all, infos, j, t)
        && all[j] == SelectOf(active, all, infos).value
        && Rank(t) > 0
        && forall k, u | QualifiesAs(all, infos, k, u) :: Rank(u) <= Rank(t)
  {
    CandidatesMeaning(all, infos);
    if Candidates(all, infos).Some? {
      var networks := Candidates(all, infos).value;
      var t :=
        if TYPE_ETHERNET in networks then TYPE_ETHERNET
        else if TYPE_WIFI in networks then TYPE_WIFI
        else if TYPE_WIMAX in networks then TYPE_WIMAX
        else TYPE_MOBILE;
      if t in networks {
        var j :| LastOfType(all, infos, j, t) && networks[t] == all[j];
        forall k, u | QualifiesAs(all, infos, k, u)
          ensures Rank(u) <= Rank(t)
        {
          assert u in networks;
        }
      } else {
        forall k, u | QualifiesAs(all, infos, k, u)
          ensures Rank(u) == 0
        {
          assert u in networks;
        }
      }
    }
  }

  /** The process is only ever rebound to a qualifying, non-VPN network,
      and only when the platform accepts. */
  lemma BindOnlyToQualifying(active: Option<Network>, all: seq<Network>, infos: map<Network, NetworkInfo>,
                             bound: Option<Network>, accepted: bool)
    ensures var after := BindOf(active, all, infos, bound, accepted).1;
      after != bound ==>
        && accepted
        && after.Some?
        && IsConnectedNonVpnNetwork(InfoOf(infos, after))
        && InfoOf(infos, after).value.netType != TYPE_VPN
  {
    SelectNeverVpn(active, all, infos);
  }

  /** Binding is idempotent: once a call has bound the process (or found
      it bound) to the selected network, a second call with the same
      platform state changes nothing, whatever the platform would answer. */
  lemma BindIdempotent(active: Option<Network>, all: seq<Network>, infos: map<Network, NetworkInfo>,
                       bound: Option<Network>, again: bool)
    ensures var first := BindOf(active, all, infos, bound, true);
      BindOf(active, all, infos, first.1, again) == first
  {
  }
}
