/** The process-wide record of the VPN tunnel service: the tunnel manager
    once the service has created one, and a flag raised between asking the
    system to start the service and the manager's arrival. The service is
    "running" while either is set. */
module TunnelState {

  /** The tunnel manager of the running VPN service; only its identity
      matters here. */
  class TunnelManager {
    constructor() { }
  }

  class TunnelState {
    /** m_tunnelManager */
    var tunnelManager: TunnelManager?
    /** m_startingTunnelManager */
    var startingTunnelManager: bool

    /** A fresh state holds no manager and is not starting. */
    constructor()
      ensures tunnelManager == null && !startingTunnelManager
      ensures !Running()
    {
      tunnelManager := null;
      startingTunnelManager := false;
    }

    /** isServiceRunning's test: starting, or a manager is present. */
    predicate Running()
      reads this
    {
      startingTunnelManager || tunnelManager != null
    }

    /** Records the manager (null when the service stops) and always ends the
        starting phase; recording null therefore means "not running". */
    method SetTunnelManager(manager: TunnelManager?)
      modifies this
      ensures tunnelManager == manager && !startingTunnelManager
      ensures Running() <==> manager != null
    {
      tunnelManager := manager;
      startingTunnelManager := false;
    }

    method GetTunnelManager() returns (manager: TunnelManager?)
      ensures manager == tunnelManager
    {
      return tunnelManager;
    }

    /** Marks the service as starting; the manager is left as it was, and the
        service counts as running from here on. */
    method SetStartingTunnelManager()
      modifies this
      ensures startingTunnelManager && tunnelManager == old(tunnelManager)
      ensures Running()
    {
      startingTunnelManager := true;
    }

    method GetStartingTunnelManager() returns (starting: bool)
      ensures starting == startingTunnelManager
    {
      return startingTunnelManager;
    }
  }

  /** The static m_tunnelState slot. */
  class Registry {
    var instance: TunnelState?

    constructor()
      ensures instance == null
    {
      instance := null;
    }

    /** getTunnelState: creates the one instance on the first call and
        returns that same instance on every later call. */
    method GetTunnelState() returns (state: TunnelState)
      modifies this
      ensures instance == state
      ensures old(instance) != null ==> state == old(instance)
      ensures old(instance) == null ==> fresh(state) && state.tunnelManager == null && !state.startingTunnelManager
    {
      if instance == null {
        instance := new TunnelState();
      }
      return instance;
    }

    /** isServiceRunning of the plugin: asks the one instance whether it is
        starting or has a manager, creating it (not running) if need be. */
    method IsServiceRunning() returns (running: bool)
      modifies this
      ensures instance != null && (old(instance) != null ==> instance == old(instance))
      ensures old(instance) == null ==> fresh(instance)
      ensures running <==> instance.Running()
      ensures old(instance) == null ==> !running
    {
      var tunnelState := GetTunnelState();
      var starting := tunnelState.GetStartingTunnelManager();
      var manager := tunnelState.GetTunnelManager();
      return starting || manager != null;
    }

    /** The life cycle the plugin and the service go through: the plugin
        marks the service as starting, the service records its manager, and
        on shutdown the service records null; the service counts as
        running until that last step and not after it. */
    method StartThenStop(manager: TunnelManager)
      modifies this, instance
      ensures instance != null && (instance == old(instance) || old(instance) == null)
      ensures !instance.Running() && instance.tunnelManager == null
    {
      var tunnelState := GetTunnelState();
      tunnelState.SetStartingTunnelManager();
      var running := IsServiceRunning();
      assert running;
      tunnelState.SetTunnelManager(manager);
      running := IsServiceRunning();
      assert running;
      tunnelState.SetTunnelManager(null);
      running := IsServiceRunning();
      assert !running;
    }
  }
}
