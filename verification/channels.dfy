/** The channel registry of src/channels.rs: channel name to the set of member nicknames.
    Channels are created by their first join and never removed; there is no leave. */
module ChannelRegistry {

  datatype Channels = Channels(channelsMap: map<string, set<string>>)

  /** `Channels::new`: no channel exists yet. */
  function New(): (c: Channels)
    ensures c.channelsMap.Keys == {}
  {
    Channels(map[])
  }

  /** `channel_list`: the members of `channel`, empty for a channel nobody has joined. The source
      hands out an iterator over a hash set, so the order is unspecified; a set models it. */
  function ChannelList(c: Channels, channel: string): (members: set<string>)
    ensures channel !in c.channelsMap ==> members == {}
  {
    if channel in c.channelsMap then c.channelsMap[channel] else {}
  }

  /** `join_user`: add `nick` to `channel`, creating the channel with `{nick}` when it is new.
      No other channel changes. */
  function JoinUser(c: Channels, channel: string, nick: string): (r: Channels)
    ensures nick in ChannelList(r, channel)
    ensures ChannelList(r, channel) == ChannelList(c, channel) + {nick}
    ensures channel !in c.channelsMap ==> ChannelList(r, channel) == {nick}
    ensures r.channelsMap.Keys == c.channelsMap.Keys + {channel}
    ensures forall other :: other != channel ==> ChannelList(r, other) == ChannelList(c, other)
  {
    if channel in c.channelsMap then
      Channels(c.channelsMap[channel := c.channelsMap[channel] + {nick}])
    else
      Channels(c.channelsMap[channel := {nick}])
  }

  /** Every channel `new()` knows of is empty. */
  lemma NewIsEmpty(channel: string)
    ensures ChannelList(New(), channel) == {}
  {
  }

  /** Joining the same channel with the same nickname again changes nothing. */
  lemma JoinIdempotent(c: Channels, channel: string, nick: string)
    ensures JoinUser(JoinUser(c, channel, nick), channel, nick) == JoinUser(c, channel, nick)
  {
    var once := JoinUser(c, channel, nick);
    assert once.channelsMap[channel] + {nick} == once.channelsMap[channel];
  }

  /** Two joins can be applied in either order. */
  lemma JoinCommutes(c: Channels, ch1: string, n1: string, ch2: string, n2: string)
    ensures JoinUser(JoinUser(c, ch1, n1), ch2, n2) == JoinUser(JoinUser(c, ch2, n2), ch1, n1)
  {
    var a := JoinUser(JoinUser(c, ch1, n1), ch2, n2);
    var b := JoinUser(JoinUser(c, ch2, n2), ch1, n1);
    forall ch | ch in a.channelsMap
      ensures a.channelsMap[ch] == b.channelsMap[ch]
    {
      assert a.channelsMap[ch] == ChannelList(a, ch);
      assert b.channelsMap[ch] == ChannelList(b, ch);
    }
  }

  /** The registry after a sequence of joins, applied in order. */
  function JoinAll(c: Channels, joins: seq<(string, string)>): Channels
  {
    if |joins| == 0 then c
    else
      var last := joins[|joins| - 1];
      JoinUser(JoinAll(c, joins[..|joins| - 1]), last.0, last.1)
  }

  /** Membership never shrinks: every member before a sequence of joins is still a member
      after it, and every channel still exists. */
  lemma {:induction false} JoinsOnlyGrow(c: Channels, joins: seq<(string, string)>, channel: string)
    ensures ChannelList(c, channel) <= ChannelList(JoinAll(c, joins), channel)
    ensures c.channelsMap.Keys <= JoinAll(c, joins).channelsMap.Keys
  {
    if |joins| > 0 {
      JoinsOnlyGrow(c, joins[..|joins| - 1], channel);
    }
  }

  /** Starting from `new()`, the channels that exist are exactly the ones joined. */
  lemma {:induction false} JoinAllChannels(joins: seq<(string, string)>)
    ensures JoinAll(New(), joins).channelsMap.Keys == set i | 0 <= i < |joins| :: joins[i].0
  {
    if |joins| > 0 {
      var init := joins[..|joins| - 1];
      JoinAllChannels(init);
      var last := joins[|joins| - 1];
      var keys := set i | 0 <= i < |joins| :: joins[i].0;
      var keys' := set i | 0 <= i < |init| :: init[i].0;
      forall k | k in keys
        ensures k in keys' + {last.0}
      {
        var i :| 0 <= i < |joins| && joins[i].0 == k;
        if i < |init| {
          assert init[i].0 == k;
        }
      }
      forall k | k in keys'
        ensures k in keys
      {
        var i :| 0 <= i < |init| && init[i].0 == k;
        assert joins[i].0 == k;
      }
      assert keys == keys' + {last.0};
    }
  }

  /** Starting from `new()`, a channel's members are exactly the nicknames that joined it. */
  lemma {:induction false} JoinAllMembers(joins: seq<(string, string)>, channel: string)
    ensures ChannelList(JoinAll(New(), joins), channel) ==
      set i | 0 <= i < |joins| && joins[i].0 == channel :: joins[i].1
  {
    if |joins| > 0 {
      var init := joins[..|joins| - 1];
      JoinAllMembers(init, channel);
      var last := joins[|joins| - 1];
      var members := set i | 0 <= i < |joins| && joins[i].0 == channel :: joins[i].1;
      var members' := set i | 0 <= i < |init| && init[i].0 == channel :: init[i].1;
      var added: set<string> := if last.0 == channel then {last.1} else {};
      forall n | n in members
        ensures n in members' + added
      {
        var i :| 0 <= i < |joins| && joins[i].0 == channel && joins[i].1 == n;
        if i < |init| {
          assert init[i].0 == channel && init[i].1 == n;
        }
      }
      forall n | n in members'
        ensures n in members
      {
        var i :| 0 <= i < |init| && init[i].0 == channel && init[i].1 == n;
        assert joins[i] == init[i];
      }
      assert members == members' + added;
    }
  }

}
