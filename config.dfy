/**
 * The `guildconfiguration` table: one row per guild with its logs channel and
 * whether the bad-words filter is on. Rows are kept in table order, because
 * the message handler and the unmute command both walk them in that order.
 */
module Config {

  /** The logs-channel value that means "no logs channel". */
  const NoLogsChannel: string := "none"

  /** A `guildconfiguration` row: `guildid`, `logschannelid`, `filter`. */
  datatype ConfigRow = ConfigRow(guildId: string, logsChannelId: string, filter: int)

  /**
   * The table after `UPDATE guildconfiguration SET filter=v WHERE guildid=g`:
   * the rows of guild `g` get filter `v`, every other field and every other
   * row stays as it was, and no row is added or removed.
   */
  function WithFilter(rows: seq<ConfigRow>, guildId: string, v: int): (r: seq<ConfigRow>)
    ensures |r| == |rows|
    ensures forall i :: 0 <= i < |rows| ==>
      r[i].guildId == rows[i].guildId && r[i].logsChannelId == rows[i].logsChannelId
    ensures forall i :: 0 <= i < |rows| ==>
      r[i].filter == if rows[i].guildId == guildId then v else rows[i].filter
  {
    if rows == [] then []
    else
      var head := if rows[0].guildId == guildId then rows[0].(filter := v) else rows[0];
      [head] + WithFilter(rows[1..], guildId, v)
  }

  /** Setting the same filter value twice leaves the table as setting it once. */
  lemma WithFilterIdempotent(rows: seq<ConfigRow>, guildId: string, v: int)
    ensures WithFilter(WithFilter(rows, guildId, v), guildId, v) == WithFilter(rows, guildId, v)
  {
  }

  /** The configuration table, updated in place by the commands that change settings. */
  class ConfigTable {
    var rows: seq<ConfigRow>

    constructor (initial: seq<ConfigRow>)
      ensures rows == initial
    {
      rows := initial;
    }

    /** `UPDATE guildconfiguration SET filter=v WHERE guildid=guildId`. */
    method SetFilter(guildId: string, v: int)
      modifies this
      ensures rows == WithFilter(old(rows), guildId, v)
    {
      rows := WithFilter(rows, guildId, v);
    }
  }
}
