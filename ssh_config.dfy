/**
 * `SSHConfig`: the object that reads the client configuration and keeps the
 * blocks it has read in its list `config` (the source's `_config`).
 */
module ConfigFile {
  import opened Wrappers
  import opened Text
  import opened SettingsRegex
  import opened HostBlock
  import opened ConfigParser

  class SSHConfig {
    /** The blocks read so far, oldest first. */
    var config: seq<Block>

    /** The list starts empty; the file is read only by `Load`. */
    constructor ()
      ensures config == []
    {
      config := [];
    }

    /**
     * Reads the lines of the configuration file, appending the blocks read
     * to `config`, and returns the whole of `config`, or the error of the
     * first bad line. Blocks appended before an error stay appended.
     */
    method Load(lines: seq<string>) returns (r: Result<seq<Block>, ParseError>)
      modifies this
      ensures config == old(config) + Walk(Directives(lines), InitialBlock).appended
      ensures r == match Walk(Directives(lines), InitialBlock).error
                   case None => Ok(config)
                   case Some(e) => Err(e)
    {
      ghost var ds := Directives(lines);
      ghost var done: seq<Block> := [];
      var host := InitialBlock;
      var i := 0;
      while i < |lines|
        invariant 0 <= i <= |lines|
        invariant WellShaped(host.config)
        invariant config == old(config) + done
        invariant Walk(ds, InitialBlock) == Then(done, Walk(ds[i..], host))
      {
        var line := Strip(lines[i]);
        if line == [] || line[0] == '#' {
          LineSkipped(lines, i, host);
          i := i + 1;
          continue;
        }
        var m := MatchSetting(line);
        if m.None? {
          LineMalformed(lines, i, host);
          return Err(UnparsableLine(line));
        }
        var key := Lower(m.value.0);
        var value := m.value.1;
        if key == HostKey {
          LineHost(lines, i, host, m.value.0, value);
          Concat(old(config), done, [host]);
          config := config + [host];
          ghost var closed := done;
          done := done + [host];
          var hosts := GetHosts(value);
          if hosts.Err? {
            return Err(hosts.error);
          }
          ThenConcat(closed, [host], Walk(ds[i + 1..], Block(hosts.value, map[])));
          host := Block(hosts.value, map[]);
        } else {
          LineSetting(lines, i, host, m.value.0, value);
          host := SetOption(host, key, value);
        }
        i := i + 1;
      }
      assert ds[i..] == [];
      Concat(old(config), done, [host]);
      config := config + [host];
      return Ok(config);
    }
  }

  lemma Concat<T>(front: seq<T>, middle: seq<T>, back: seq<T>)
    ensures front + middle + back == front + (middle + back)
  {
  }

  /**
   * The body of the reading loop for a line `key value` whose key is not
   * `host`: the open block's settings change as `Apply` says.
   */
  method SetOption(host: Block, key: string, value: string) returns (updated: Block)
    requires WellShaped(host.config)
    ensures updated == host.(config := Apply(host.config, key, value))
  {
    updated := host;
    if key == ProxyCommandKey && Lower(value) == "none" {
      updated := updated.(config := updated.config[key := NoneMarker]);
    } else {
      var v := value;
      if IsQuoted(v) {
        v := if |v| == 1 then "" else v[1..|v| - 1];
      }
      if key in MultiValuedKeys {
        if key in updated.config {
          updated := updated.(config := updated.config[key := Multi(updated.config[key].items + [v])]);
        } else {
          updated := updated.(config := updated.config[key := Multi([v])]);
        }
      } else if key !in updated.config {
        updated := updated.(config := updated.config[key := Single(v)]);
      }
    }
  }

  /**
   * Two readings of the same file through one object: the second appends the
   * same blocks again, so its result repeats them. A failed reading fails the
   * same way both times.
   */
  method LoadTwice(lines: seq<string>) returns (first: Result<seq<Block>, ParseError>, second: Result<seq<Block>, ParseError>)
    ensures Parse(lines).Ok? ==>
      first == Parse(lines) && second == Ok(Parse(lines).value + Parse(lines).value)
    ensures Parse(lines).Err? ==> first == Parse(lines) && second == Parse(lines)
  {
    var c := new SSHConfig();
    ghost var o := Walk(Directives(lines), InitialBlock);
    first := c.Load(lines);
    assert c.config == o.appended;
    second := c.Load(lines);
  }
}
