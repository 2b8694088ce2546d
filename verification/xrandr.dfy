/**
 * One display configuration (`XrandrConfig`): the ports it needs connected
 * and the commands that switch to it.
 */
module Xrandr {
  import opened Commands

  /** `code` names the configuration's section in the configuration file;
      `title` is the label shown to the user. */
  datatype Profile = Profile(code: string, title: string, ports: seq<string>, commands: seq<string>)

  /** The loop of `available`: scans the required ports in order and gives
      up at the first one missing from the connected outputs. */
  function AllConnected(ports: seq<string>, connected: seq<string>): (r: bool)
    ensures r <==> forall i | 0 <= i < |ports| :: ports[i] in connected
  {
    if |ports| == 0 then true
    else if ports[0] !in connected then false
    else
      var r := AllConnected(ports[1..], connected);
      assert forall i | 1 <= i < |ports| :: ports[i] == ports[1..][i - 1];
      r
  }

  /** `XrandrConfig.available`: every required port is connected. A profile
      with no required port is available whatever is connected. */
  function Available(p: Profile, connected: seq<string>): (r: bool)
    ensures r <==> forall i | 0 <= i < |p.ports| :: p.ports[i] in connected
    ensures |p.ports| == 0 ==> r
  {
    AllConnected(p.ports, connected)
  }

  /** Availability is monotone: connecting more outputs never makes a
      profile unavailable. */
  lemma AvailableMonotone(p: Profile, connected: seq<string>, more: seq<string>)
    requires forall x | x in connected :: x in more
    requires Available(p, connected)
    ensures Available(p, more)
  {
  }

  /** Availability depends only on which outputs are connected, not on
      their order or repetition. */
  lemma AvailableIgnoresOrder(p: Profile, c1: seq<string>, c2: seq<string>)
    requires forall x :: x in c1 <==> x in c2
    ensures Available(p, c1) == Available(p, c2)
  {
  }

  /** `XrandrConfig.execute`: runs the profile's commands, stopping at the
      first failure, and swallows that failure. */
  function ExecuteProfile(p: Profile, succeeds: string -> bool): (e: Execution)
    ensures StopsAtFirstFailure(p.commands, succeeds, e)
  {
    Execute(p.commands, succeeds)
  }

  /** A profile that needs only VGA-1 is available when VGA-1 and HDMI-1 are
      connected; one that needs both is not available with VGA-1 alone. */
  lemma AvailabilityScenarios()
    ensures Available(Profile("vga", "vga", ["VGA-1"], ["cmdA", "cmdB"]), ["VGA-1", "HDMI-1"])
    ensures !Available(Profile("dual", "dual", ["VGA-1", "HDMI-1"], []), ["VGA-1"])
  {
    assert "HDMI-1" != "VGA-1" by {
      assert "HDMI-1"[0] != "VGA-1"[0];
    }
  }
}
