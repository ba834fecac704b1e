/**
 * One host block of an OpenSSH client configuration (`ssh_config(5)`): the
 * host patterns of its `Host` line and the settings that follow it, and the
 * rule by which each setting line changes the block's settings.
 */
module HostBlock {
  import opened Text

  /**
   * A setting's value: one string, a list of strings for the keys that may be
   * given several times, or the explicit marker stored for `ProxyCommand none`.
   */
  datatype Value = Single(text: string) | Multi(items: seq<string>) | NoneMarker

  /** `{"host": [...], "config": {...}}`: host patterns and settings keyed by lower-cased keyword. */
  datatype Block = Block(host: seq<string>, config: map<string, Value>)

  /** The keys that accumulate, in the order given, because ssh tries them in that order. */
  const MultiValuedKeys: set<string> := {"identityfile", "localforward", "remoteforward"}

  const ProxyCommandKey: string := "proxycommand"

  /** A `ProxyCommand` argument that disables the proxy: `none` in any letter case. */
  predicate IsNoneValue(value: string)
  {
    Lower(value) == "none"
  }

  /** The value starts and ends with a double quote (a lone `"` does both). */
  predicate IsQuoted(value: string)
  {
    |value| > 0 && value[0] == '"' && value[|value| - 1] == '"'
  }

  /** `value[1:-1]` when the value is quoted; the value unchanged otherwise. */
  function Unquote(value: string): (r: string)
    ensures IsQuoted(value) ==> |r| == if |value| == 1 then 0 else |value| - 2
    ensures IsQuoted(value) ==> forall k :: 0 <= k < |r| ==> r[k] == value[k + 1]
    ensures !IsQuoted(value) ==> r == value
  {
    if IsQuoted(value) then (if |value| == 1 then "" else value[1..|value| - 1]) else value
  }

  /** Exactly one layer of quotes comes off, whatever is inside. */
  lemma UnquoteWrapped(s: string)
    ensures Unquote("\"" + s + "\"") == s
  {
    var q := "\"" + s + "\"";
    assert IsQuoted(q);
    assert q[1..|q| - 1] == s;
  }

  /**
   * The shapes the settings can have: the multi-valued keys hold lists, the
   * marker only ever stands under `proxycommand`, and every other key holds
   * one string.
   */
  predicate WellShaped(config: map<string, Value>)
  {
    forall k :: k in config ==>
      (k in MultiValuedKeys <==> config[k].Multi?)
      && (config[k].NoneMarker? ==> k == ProxyCommandKey)
  }

  /**
   * The effect of one setting line `key value` (key already lower-cased) on
   * the open block's settings.
   */
  function Apply(config: map<string, Value>, key: string, value: string): (r: map<string, Value>)
    requires WellShaped(config)
    ensures WellShaped(r)
    ensures r.Keys == config.Keys + {key}
    ensures forall k :: k in config && k != key ==> r[k] == config[k]
  {
    if key == ProxyCommandKey && IsNoneValue(value) then
      config[key := NoneMarker]
    else
      var v := Unquote(value);
      if key in MultiValuedKeys then
        if key in config then config[key := Multi(config[key].items + [v])]
        else config[key := Multi([v])]
      else if key in config then config
      else config[key := Single(v)]
  }

  /**
   * The test for `none` looks at the argument as written: a quoted `"none"`
   * is not the marker, and is stored, unquoted, as the text `none`.
   */
  lemma QuotedNoneIsText(config: map<string, Value>)
    requires WellShaped(config) && ProxyCommandKey !in config
    ensures Apply(config, ProxyCommandKey, "\"none\"") == config[ProxyCommandKey := Single("none")]
  {
    var q := "\"none\"";
    assert Lower(q)[0] == '"' by {
      LowerAt(q, 0);
    }
    assert Unquote(q) == "none";
  }

  /** The settings built by applying the setting lines in order, starting from none. */
  function Build(settings: seq<(string, string)>): (r: map<string, Value>)
    ensures WellShaped(r)
    decreases |settings|
  {
    if settings == [] then map[]
    else
      var last := settings[|settings| - 1];
      Apply(Build(settings[..|settings| - 1]), last.0, last.1)
  }

  /** The arguments given for `key`, in order. */
  function ValuesOf(settings: seq<(string, string)>, key: string): (r: seq<string>)
    ensures |r| <= |settings|
    decreases |settings|
  {
    if settings == [] then []
    else
      var last := settings[|settings| - 1];
      ValuesOf(settings[..|settings| - 1], key) + (if last.0 == key then [last.1] else [])
  }

  function UnquoteAll(values: seq<string>): (r: seq<string>)
    ensures |r| == |values| && forall i :: 0 <= i < |values| ==> r[i] == Unquote(values[i])
  {
    if values == [] then [] else [Unquote(values[0])] + UnquoteAll(values[1..])
  }

  predicate HasNoneValue(values: seq<string>)
  {
    exists i :: 0 <= i < |values| && IsNoneValue(values[i])
  }

  /** A key is set exactly when some setting line gives it. */
  lemma {:induction false} BuildKeys(settings: seq<(string, string)>, key: string)
    ensures key in Build(settings) <==> ValuesOf(settings, key) != []
    decreases |settings|
  {
    if settings != [] {
      BuildKeys(settings[..|settings| - 1], key);
    }
  }

  /**
   * First value wins: a key other than the multi-valued ones and
   * `proxycommand` keeps the (unquoted) argument of its first line.
   */
  lemma {:induction false} FirstValueWins(settings: seq<(string, string)>, key: string)
    requires key !in MultiValuedKeys && key != ProxyCommandKey
    requires ValuesOf(settings, key) != []
    ensures key in Build(settings)
    ensures Build(settings)[key] == Single(Unquote(ValuesOf(settings, key)[0]))
    decreases |settings|
  {
    BuildKeys(settings, key);
    var init := settings[..|settings| - 1];
    if ValuesOf(init, key) != [] {
      FirstValueWins(init, key);
    } else {
      BuildKeys(init, key);
    }
  }

  /**
   * `identityfile`, `localforward` and `remoteforward` accumulate: the list
   * holds every (unquoted) argument given, in order, and is never empty.
   */
  lemma {:induction false} MultiValuesAccumulate(settings: seq<(string, string)>, key: string)
    requires key in MultiValuedKeys
    requires ValuesOf(settings, key) != []
    ensures key in Build(settings)
    ensures Build(settings)[key] == Multi(UnquoteAll(ValuesOf(settings, key)))
    decreases |settings|
  {
    BuildKeys(settings, key);
    var init := settings[..|settings| - 1];
    var last := settings[|settings| - 1];
    if ValuesOf(init, key) != [] {
      MultiValuesAccumulate(init, key);
      if last.0 == key {
        assert UnquoteAll(ValuesOf(init, key) + [last.1]) == UnquoteAll(ValuesOf(init, key)) + [Unquote(last.1)];
      } else {
        assert ValuesOf(settings, key) == ValuesOf(init, key);
      }
    } else {
      BuildKeys(init, key);
    }
  }

  /**
   * `proxycommand` holds the marker exactly when some argument given for it
   * is `none` (in any letter case, before quotes are removed), wherever it
   * stands: the marker overwrites an earlier value and later values are
   * ignored. Otherwise the first argument wins, like any single-valued key.
   */
  lemma {:induction false} ProxyCommandNone(settings: seq<(string, string)>)
    requires ValuesOf(settings, ProxyCommandKey) != []
    ensures ProxyCommandKey in Build(settings)
    ensures Build(settings)[ProxyCommandKey]
         == if HasNoneValue(ValuesOf(settings, ProxyCommandKey)) then NoneMarker
            else Single(Unquote(ValuesOf(settings, ProxyCommandKey)[0]))
    decreases |settings|
  {
    var key := ProxyCommandKey;
    BuildKeys(settings, key);
    var init := settings[..|settings| - 1];
    var last := settings[|settings| - 1];
    var before := ValuesOf(init, key);
    var all := ValuesOf(settings, key);
    if before != [] {
      ProxyCommandNone(init);
      if last.0 == key {
        assert all == before + [last.1];
        assert HasNoneValue(all) <==> HasNoneValue(before) || IsNoneValue(last.1) by {
          if HasNoneValue(all) && !IsNoneValue(last.1) {
            var i :| 0 <= i < |all| && IsNoneValue(all[i]);
            assert all[i] == before[i];
          }
          if HasNoneValue(before) {
            var i :| 0 <= i < |before| && IsNoneValue(before[i]);
            assert all[i] == before[i];
          }
          if IsNoneValue(last.1) {
            assert all[|all| - 1] == last.1;
          }
        }
      } else {
        assert all == before;
      }
    } else {
      BuildKeys(init, key);
      assert all == [last.1];
      assert HasNoneValue(all) <==> IsNoneValue(last.1) by {
        if HasNoneValue(all) {
          var i :| 0 <= i < |all| && IsNoneValue(all[i]);
        }
        if IsNoneValue(last.1) {
          assert all[0] == last.1;
        }
      }
    }
  }
}
