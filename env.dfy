/** `loadEnvFromFile` and the wallet / RPC fallback chain. The process
    environment is a map from variable name to value; the file is its text,
    or None when it does not exist or cannot be read. */
module EnvFile {
  import opened Base
  import opened Text

  datatype Binding = Binding(key: string, value: string)

  /** One line of the file: trimmed; blank lines, `#` comments, lines
      without `=` and lines with an empty key give nothing; otherwise the key
      is the trimmed text before the first `=` and the value the trimmed text
      after it. */
  function ParseLine(raw: string): (r: Option<Binding>)
    ensures Trim(raw) == [] || Trim(raw)[0] == '#' || '=' !in Trim(raw) ==> r.None?
    ensures r.Some? ==> r.value.key != []
    // otherwise the line splits at its first `=`, and a line whose key
    // trims to nothing is the only other one that gives no binding
    ensures var t := Trim(raw);
            t != [] && t[0] != '#' && IndexOf(t, '=').Some? ==>
              var eq := IndexOf(t, '=').value;
              && (r.Some? <==> Trim(t[..eq]) != [])
              && (r.Some? ==> r.value == Binding(Trim(t[..eq]), Trim(t[eq + 1..])))
  {
    var line := Trim(raw);
    if line == [] || line[0] == '#' then None
    else match IndexOf(line, '=')
      case None => None
      case Some(eq) =>
        var key := Trim(line[..eq]);
        if key == [] then None else Some(Binding(key, Trim(line[eq + 1..])))
  }

  /** A binding comes only from a line whose trimmed form holds `=` and is
      not a comment; its key is non-empty, has no `=`, and key and value are
      trimmed. */
  lemma ParseLineSpec(raw: string)
    ensures var r := ParseLine(raw);
            r.Some? ==> && r.value.key != [] && '=' !in r.value.key
                        && Trim(r.value.key) == r.value.key && Trim(r.value.value) == r.value.value
                        && '=' in Trim(raw) && Trim(raw)[0] != '#'
  {
    var line := Trim(raw);
    if line != [] && line[0] != '#' && IndexOf(line, '=').Some? {
      var eq := IndexOf(line, '=').value;
      TrimIdempotent(line[..eq]);
      TrimIdempotent(line[eq + 1..]);
      var key := Trim(line[..eq]);
      if key != [] {
        TrimIsSlice(line[..eq]);
      }
    }
  }

  /** A line `p=q`, with any white space around either side, binds the
      trimmed `p` to the trimmed `q` (`KEY = value` is `KEY=value`). */
  lemma ParseLinePadded(p: string, q: string)
    requires '=' !in p
    requires Trim(p) != [] && Trim(p)[0] != '#'
    ensures ParseLine(p + "=" + q) == Some(Binding(Trim(p), Trim(q)))
  {
    var a, b := TrimStart(p), TrimEnd(q);
    TrimAround(p, '=', q);
    TrimStartSpec(p);
    TrimOfTrimStart(p);
    TrimOfTrimEnd(q);
    var t := a + "=" + b;
    assert Trim(p + "=" + q) == t;
    assert a != [] && t[0] == a[0];
    assert Trim(a) == Trim(p);
    assert a[0] == Trim(a)[0] by {
      assert TrimStart(a) == a;
      TrimEndSpec(a);
    }
    assert '=' !in a;
    assert t[..|a|] == a && t[|a|] == '=' && t[|a| + 1..] == b;
    assert IndexOf(t, '=') == Some(|a|);
  }

  /** A well-formed `key=value` line parses back to its key and value. */
  lemma ParseLineOfBinding(key: string, value: string)
    requires key != [] && key[0] != '#' && '=' !in key
    requires Trim(key) == key && Trim(value) == value
    ensures ParseLine(key + "=" + value) == Some(Binding(key, value))
  {
    ParseLinePadded(key, value);
  }

  /** One parsed line applied to the environment: a key already present is
      never overwritten. */
  function Apply(env: map<string, string>, b: Option<Binding>): (r: map<string, string>)
    ensures forall k :: k in env ==> k in r && r[k] == env[k]
    ensures forall k :: k in r && k !in env ==> b == Some(Binding(k, r[k]))
    ensures b.Some? ==> b.value.key in r
  {
    if b.Some? && b.value.key !in env then env[b.value.key := b.value.value] else env
  }

  /** Every line of the file, parsed. */
  function ParseLines(lines: seq<string>): (r: seq<Option<Binding>>)
    ensures |r| == |lines| && forall i :: 0 <= i < |lines| ==> r[i] == ParseLine(lines[i])
  {
    seq(|lines|, i requires 0 <= i < |lines| => ParseLine(lines[i]))
  }

  /** The environment after the parsed lines, in order. */
  function ApplyAll(bs: seq<Option<Binding>>, env: map<string, string>): (r: map<string, string>)
    ensures forall k :: k in env ==> k in r && r[k] == env[k]
    ensures forall k :: k in r && k !in env ==> exists i :: 0 <= i < |bs| && bs[i] == Some(Binding(k, r[k]))
    decreases |bs|
  {
    if |bs| == 0 then env else ApplyAll(bs[1..], Apply(env, bs[0]))
  }

  /** The environment after the file's lines. */
  function EnvAfter(lines: seq<string>, env: map<string, string>): (r: map<string, string>)
    ensures forall k :: k in env ==> k in r && r[k] == env[k]
    ensures forall k :: k in r && k !in env ==> exists i :: 0 <= i < |lines| && ParseLine(lines[i]) == Some(Binding(k, r[k]))
  {
    ApplyAll(ParseLines(lines), env)
  }

  /** The parsed line binds `key`. */
  predicate Binds(b: Option<Binding>, key: string) {
    b.Some? && b.value.key == key
  }

  /** The value of the first line that binds `key`, if any. */
  function FirstValue(bs: seq<Option<Binding>>, key: string): Option<string>
    decreases |bs|
  {
    if |bs| == 0 then None
    else if Binds(bs[0], key) then Some(bs[0].value.value)
    else FirstValue(bs[1..], key)
  }

  /** The first value is that of the first line binding the key, no earlier
      line binding it; none means no line binds it at all. */
  lemma {:induction false} FirstValueSpec(bs: seq<Option<Binding>>, key: string)
    ensures var r := FirstValue(bs, key);
            && (r.Some? ==> exists i :: 0 <= i < |bs| && bs[i] == Some(Binding(key, r.value))
                                        && forall j :: 0 <= j < i ==> !Binds(bs[j], key))
            && (r.None? ==> forall i :: 0 <= i < |bs| ==> !Binds(bs[i], key))
    decreases |bs|
  {
    if |bs| > 0 {
      if Binds(bs[0], key) {
        assert bs[0] == Some(Binding(key, FirstValue(bs, key).value));
      } else {
        var tail := bs[1..];
        FirstValueSpec(tail, key);
        var r := FirstValue(bs, key);
        if r.Some? {
          var i :| 0 <= i < |tail| && tail[i] == Some(Binding(key, r.value))
                   && forall j :: 0 <= j < i ==> !Binds(tail[j], key);
          assert bs[i + 1] == tail[i];
          forall j | 0 <= j < i + 1
            ensures !Binds(bs[j], key)
          {
            if j > 0 {
              assert bs[j] == tail[j - 1];
            }
          }
        } else {
          forall i | 0 <= i < |bs|
            ensures !Binds(bs[i], key)
          {
            if i > 0 {
              assert bs[i] == tail[i - 1];
            }
          }
        }
      }
    }
  }

  /** A variable set before the file is read keeps its value; any other
      variable ends up bound exactly when some line binds it, to the value of
      the FIRST such line. */
  lemma {:induction false} EnvAfterBinding(bs: seq<Option<Binding>>, env: map<string, string>, key: string)
    ensures key in env ==> key in ApplyAll(bs, env) && ApplyAll(bs, env)[key] == env[key]
    ensures key !in env ==> (key in ApplyAll(bs, env) <==> FirstValue(bs, key).Some?)
    ensures key !in env && key in ApplyAll(bs, env) ==> ApplyAll(bs, env)[key] == FirstValue(bs, key).value
    decreases |bs|
  {
    if |bs| > 0 {
      var env1 := Apply(env, bs[0]);
      EnvAfterBinding(bs[1..], env1, key);
      if !Binds(bs[0], key) {
        assert key in env1 <==> key in env;
      }
    }
  }

  /** `loadEnvFromFile`: walks the lines of the file and adds each binding
      whose key is not yet set. */
  method LoadEnvFromFile(file: Option<string>, env: map<string, string>) returns (env': map<string, string>)
    ensures file.None? ==> env' == env
    ensures file.Some? ==> env' == EnvAfter(Split(file.value, '\n'), env)
  {
    env' := env;
    if file.None? {
      return;
    }
    var lines := Split(file.value, '\n');
    ghost var parsed := ParseLines(lines);
    ghost var target := ApplyAll(parsed, env);
    var i := 0;
    while i < |lines|
      invariant 0 <= i <= |lines| == |parsed|
      invariant ApplyAll(parsed[i..], env') == target
    {
      assert parsed[i..][1..] == parsed[i + 1..];
      var b := ParseLine(lines[i]);
      assert b == parsed[i];
      if b.Some? && b.value.key !in env' {
        env' := env'[b.value.key := b.value.value];
      }
      i := i + 1;
    }
  }

  const WalletVars: seq<string> := ["UNI_WALLET_ADDRESS", "UNISWAP_WALLET_ADDRESS", "WALLET_ADDRESS"]
  const RpcVars: seq<string> := ["UNI_RPC_URL", "UNISWAP_RPC_URL", "RPC_URL"]

  predicate Unset(env: map<string, string>, name: string) {
    name !in env || env[name] == ""
  }

  /** `env.A || env.B || env.C || ''`: the value of the first name that is
      set to a non-empty string, or the empty string. */
  function FirstNonEmpty(env: map<string, string>, names: seq<string>): (r: string)
    ensures r == "" <==> forall k :: 0 <= k < |names| ==> Unset(env, names[k])
    ensures r != "" ==> exists j :: 0 <= j < |names| && names[j] in env && r == env[names[j]]
                                    && forall k :: 0 <= k < j ==> Unset(env, names[k])
  {
    if |names| == 0 then ""
    else if !Unset(env, names[0]) then env[names[0]]
    else
      var r := FirstNonEmpty(env, names[1..]);
      assert forall k :: 1 <= k < |names| ==> names[k] == names[1..][k - 1];
      if r != "" then
        var j :| 0 <= j < |names[1..]| && names[1..][j] in env && r == env[names[1..][j]]
                 && forall k :: 0 <= k < j ==> Unset(env, names[1..][k]);
        assert forall k :: 0 <= k < j + 1 ==> Unset(env, names[k]);
        r
      else r
  }

  /** Two environments that agree on the names give the same choice. */
  lemma {:induction false} FirstNonEmptyAgree(a: map<string, string>, b: map<string, string>, names: seq<string>)
    requires forall k :: 0 <= k < |names| ==> (names[k] in a <==> names[k] in b)
    requires forall k :: 0 <= k < |names| && names[k] in a ==> a[names[k]] == b[names[k]]
    ensures FirstNonEmpty(a, names) == FirstNonEmpty(b, names)
  {
    if |names| > 0 {
      FirstNonEmptyAgree(a, b, names[1..]);
    }
  }

  datatype Config = Config(wallet: string, rpcUrl: string)

  /** `WALLET_ADDRESS` and `RPC_URL` as computed at start-up, after the
      environment file has been loaded into the shell environment. */
  function StartupConfig(shellEnv: map<string, string>, file: Option<string>): (r: Config)
    ensures var env := if file.None? then shellEnv else EnvAfter(Split(file.value, '\n'), shellEnv);
            && (r.wallet == "" <==> forall k :: 0 <= k < |WalletVars| ==> Unset(env, WalletVars[k]))
            && (r.rpcUrl == "" <==> forall k :: 0 <= k < |RpcVars| ==> Unset(env, RpcVars[k]))
    // each value is its chain's choice over the environment as loaded
    ensures var env := if file.None? then shellEnv else EnvAfter(Split(file.value, '\n'), shellEnv);
            r.wallet == FirstNonEmpty(env, WalletVars) && r.rpcUrl == FirstNonEmpty(env, RpcVars)
  {
    var env := if file.None? then shellEnv else EnvAfter(Split(file.value, '\n'), shellEnv);
    Config(FirstNonEmpty(env, WalletVars), FirstNonEmpty(env, RpcVars))
  }

  /** The file's `UNI_WALLET_ADDRESS` beats a shell `WALLET_ADDRESS`: the
      file fills the first name of the chain when the shell leaves it unset,
      and the chain is read only after loading. */
  lemma FileChainHeadWins(shellEnv: map<string, string>, value: string)
    requires WalletVars[0] !in shellEnv
    requires value != "" && Trim(value) == value && '\n' !in value
    ensures StartupConfig(shellEnv, Some(WalletVars[0] + "=" + value)).wallet == value
  {
    var key := WalletVars[0];
    var line := key + "=" + value;
    assert '\n' !in line;
    assert Split(line, '\n') == [line];
    TrimFixed(key);
    ParseLineOfBinding(key, value);
    var bs := ParseLines([line]);
    assert bs == [Some(Binding(key, value))];
    assert FirstValue(bs, key) == Some(value);
    EnvAfterBinding(bs, shellEnv, key);
  }

  /** When the shell sets every wallet variable (even to the empty string),
      the file cannot change the wallet address. */
  lemma ShellWalletWins(shellEnv: map<string, string>, file: Option<string>)
    requires forall k :: 0 <= k < |WalletVars| ==> WalletVars[k] in shellEnv
    ensures StartupConfig(shellEnv, file).wallet == FirstNonEmpty(shellEnv, WalletVars)
  {
    if file.Some? {
      var lines := Split(file.value, '\n');
      forall k | 0 <= k < |WalletVars| {
        EnvAfterBinding(ParseLines(lines), shellEnv, WalletVars[k]);
      }
      FirstNonEmptyAgree(EnvAfter(lines, shellEnv), shellEnv, WalletVars);
    }
  }

  /** The same for the RPC endpoint. */
  lemma ShellRpcWins(shellEnv: map<string, string>, file: Option<string>)
    requires forall k :: 0 <= k < |RpcVars| ==> RpcVars[k] in shellEnv
    ensures StartupConfig(shellEnv, file).rpcUrl == FirstNonEmpty(shellEnv, RpcVars)
  {
    if file.Some? {
      var lines := Split(file.value, '\n');
      forall k | 0 <= k < |RpcVars| {
        EnvAfterBinding(ParseLines(lines), shellEnv, RpcVars[k]);
      }
      FirstNonEmptyAgree(EnvAfter(lines, shellEnv), shellEnv, RpcVars);
    }
  }
}
