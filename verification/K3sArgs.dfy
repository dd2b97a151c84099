/** The command line of the k3s installer: `ApplyK3S` of pkg/cc/funcs.go. */
module K3sArgs {
  import opened Text

  datatype Config = Config(k3sArgs: seq<string>, serverUrl: string, token: string,
                           labels: map<string, string>, taints: seq<string>)

  /** The mode the system runs in, if it can be read, the build version, and which k3s binaries are there. */
  datatype Host = Host(mode: Option<string>, version: string, k3s: bool, k3sLocal: bool)

  datatype Outcome = Failed | Nothing | Script(args: seq<string>, vars: seq<string>)

  function LabelsOf(order: seq<string>, labels: map<string, string>): seq<string>
    requires forall k | k in order :: k in labels
  {
    seq(|order|, i requires 0 <= i < |order| => order[i] + "=" + labels[order[i]])
  }

  /** The labels in the order in which they are generated. */
  function Generated(order: seq<string>, cfg: Config, host: Host): seq<string>
    requires forall k | k in order :: k in cfg.labels
  {
    LabelsOf(order, cfg.labels)
    + (if host.mode.GetOr("") != "" then ["macula.io/mode=" + host.mode.value] else [])
    + ["macula.io/version=" + host.version]
  }

  /** Two arguments for each element: the flag and the element behind a prefix. */
  function Flagged(flag: string, prefix: string, values: seq<string>): seq<string> {
    if values == [] then []
    else Flagged(flag, prefix, values[..|values| - 1]) + [flag, prefix + values[|values| - 1]]
  }

  function BaseArgs(cfg: Config): seq<string> {
    if cfg.k3sArgs != [] then cfg.k3sArgs else if cfg.serverUrl == "" then ["server"] else ["agent"]
  }

  /** The arguments, given the sorted labels. */
  function Args(cfg: Config, labels: seq<string>): seq<string> {
    BaseArgs(cfg) + Flagged("--node-label", "", labels) + Flagged("--kubelet-arg", "register-with-taints=", cfg.taints)
  }

  /** Whether the script is run at all. */
  predicate Runs(host: Host, restart: bool, install: bool) {
    host.mode.Some? && host.mode.value != "install" && (host.k3s || restart) && (host.k3s || host.k3sLocal || install)
  }

  function Vars(cfg: Config, host: Host, restart: bool): seq<string> {
    ["INSTALL_K3S_NAME=service"]
    + (if host.k3s then ["INSTALL_K3S_SKIP_DOWNLOAD=true", "INSTALL_K3S_BIN_DIR=/sbin", "INSTALL_K3S_BIN_DIR_READ_ONLY=true"]
       else if host.k3sLocal then ["INSTALL_K3S_SKIP_DOWNLOAD=true"] else [])
    + (if restart then [] else ["INSTALL_K3S_SKIP_START=true"])
    + (if cfg.serverUrl == "" then [] else ["K3S_URL=" + cfg.serverUrl])
    + (if "K10" <= cfg.token then ["K3S_TOKEN=" + cfg.token]
       else if cfg.token != "" then ["K3S_CLUSTER_SECRET=" + cfg.token] else [])
  }

  /** `ApplyK3S`. `order` is how Go happened to range over the labels, `sorted` what sorting gave. */
  method ApplyK3s(cfg: Config, host: Host, restart: bool, install: bool)
    returns (outcome: Outcome, ghost order: seq<string>, ghost sorted: seq<string>)
    ensures outcome.Script? <==> Runs(host, restart, install)
    ensures outcome.Nothing? <==>
      (host.mode == Some("install") || (host.mode.Some? && !host.k3s && !(restart && (host.k3sLocal || install))))
    ensures outcome.Failed? <==> host.mode.None?
    ensures outcome.Script? ==>
      && IsOrder(order, cfg.labels)
      && Sorted(sorted) && multiset(sorted) == multiset(Generated(order, cfg, host))
      && outcome == Script(Args(cfg, sorted), Vars(cfg, host, restart))
  {
    order, sorted := [], [];
    if host.mode.None? {
      return Failed, order, sorted;
    }
    if host.mode.value == "install" || (!host.k3s && !restart) || (!host.k3s && !host.k3sLocal && !install) {
      return Nothing, order, sorted;
    }
    var args := StartArgs(cfg);
    var vars := SetVars(cfg, host, restart);
    var labels;
    labels, order := GenerateLabels(cfg, host);
    labels := SortStrings(labels);
    sorted := labels;
    args := AppendFlagged(args, "--node-label", "", labels);
    args := AppendFlagged(args, "--kubelet-arg", "register-with-taints=", cfg.taints);
    outcome := Script(args, vars);
  }

  /** The first arguments. */
  method StartArgs(cfg: Config) returns (args: seq<string>)
    ensures args == BaseArgs(cfg)
  {
    args := cfg.k3sArgs;
    if args == [] {
      args := args + [if cfg.serverUrl == "" then "server" else "agent"];
    }
  }

  method SetVars(cfg: Config, host: Host, restart: bool) returns (vars: seq<string>)
    ensures vars == Vars(cfg, host, restart)
  {
    vars := ["INSTALL_K3S_NAME=service"];
    if host.k3s {
      vars := vars + ["INSTALL_K3S_SKIP_DOWNLOAD=true", "INSTALL_K3S_BIN_DIR=/sbin", "INSTALL_K3S_BIN_DIR_READ_ONLY=true"];
    } else if host.k3sLocal {
      vars := vars + ["INSTALL_K3S_SKIP_DOWNLOAD=true"];
    }
    if !restart {
      vars := vars + ["INSTALL_K3S_SKIP_START=true"];
    }
    if cfg.serverUrl != "" {
      vars := vars + ["K3S_URL=" + cfg.serverUrl];
    }
    if "K10" <= cfg.token {
      vars := vars + ["K3S_TOKEN=" + cfg.token];
    } else if cfg.token != "" {
      vars := vars + ["K3S_CLUSTER_SECRET=" + cfg.token];
    }
  }

  method GenerateLabels(cfg: Config, host: Host) returns (labels: seq<string>, ghost order: seq<string>)
    ensures IsOrder(order, cfg.labels) && labels == Generated(order, cfg, host)
  {
    labels, order := [], [];
    var todo := cfg.labels.Keys;
    while todo != {}
      invariant todo <= cfg.labels.Keys
      invariant forall i, j | 0 <= i < j < |order| :: order[i] != order[j]
      invariant forall k :: k in order <==> k in cfg.labels.Keys - todo
      invariant forall k | k in order :: k in cfg.labels
      invariant labels == LabelsOf(order, cfg.labels)
      decreases todo
    {
      var k :| k in todo;
      assert k !in order;
      todo := todo - {k};
      labels := labels + [k + "=" + cfg.labels[k]];
      order := order + [k];
    }
    if host.mode.GetOr("") != "" {
      labels := labels + ["macula.io/mode=" + host.mode.value];
    }
    labels := labels + ["macula.io/version=" + host.version];
  }

  method AppendFlagged(args: seq<string>, flag: string, prefix: string, values: seq<string>) returns (all: seq<string>)
    ensures all == args + Flagged(flag, prefix, values)
  {
    all := args;
    var i := 0;
    while i < |values|
      invariant 0 <= i <= |values| && all == args + Flagged(flag, prefix, values[..i])
    {
      assert values[..i + 1][..i] == values[..i];
      all := all + [flag, prefix + values[i]];
      i := i + 1;
    }
    assert values[..i] == values;
  }

  // ---------------------------------------------------------------- what the script is told

  /** Which variables are set: the server if there is one; a token as what it is, a full token or a shared
      secret; no download where k3s is there already, and no start unless asked for. */
  lemma VarsMean(cfg: Config, host: Host, restart: bool, x: string)
    ensures x in Vars(cfg, host, restart) <==>
      || x == "INSTALL_K3S_NAME=service"
      || (x == "INSTALL_K3S_SKIP_DOWNLOAD=true" && (host.k3s || host.k3sLocal))
      || (x in {"INSTALL_K3S_BIN_DIR=/sbin", "INSTALL_K3S_BIN_DIR_READ_ONLY=true"} && host.k3s)
      || (x == "INSTALL_K3S_SKIP_START=true" && !restart)
      || (x == "K3S_URL=" + cfg.serverUrl && cfg.serverUrl != "")
      || (x == "K3S_TOKEN=" + cfg.token && "K10" <= cfg.token)
      || (x == "K3S_CLUSTER_SECRET=" + cfg.token && cfg.token != "" && !("K10" <= cfg.token))
  {
  }

  /** Which labels are generated, and how many: one for each configured, one for the mode if there is one,
      and one for the version. */
  lemma GeneratedMean(order: seq<string>, cfg: Config, host: Host, x: string)
    requires IsOrder(order, cfg.labels)
    ensures x in Generated(order, cfg, host) <==>
      || (exists k :: k in cfg.labels && x == k + "=" + cfg.labels[k])
      || (host.mode.Some? && host.mode.value != "" && x == "macula.io/mode=" + host.mode.value)
      || x == "macula.io/version=" + host.version
    ensures |Generated(order, cfg, host)| == |cfg.labels| + (if host.mode.GetOr("") != "" then 2 else 1)
  {
    OrderLength(order, cfg.labels);
    var ls := LabelsOf(order, cfg.labels);
    if k :| k in cfg.labels && x == k + "=" + cfg.labels[k] {
      var i :| 0 <= i < |order| && order[i] == k;
      assert ls[i] == x;
    }
    if x in ls {
      var i :| 0 <= i < |ls| && ls[i] == x;
      assert order[i] in cfg.labels;
    }
  }

  lemma OrderLength(order: seq<string>, m: map<string, string>)
    requires IsOrder(order, m)
    ensures |order| == |m|
  {
    var keys := set k | k in order;
    DistinctLength(order);
    assert keys == m.Keys;
  }

  lemma {:induction false} DistinctLength(s: seq<string>)
    requires forall i, j | 0 <= i < j < |s| :: s[i] != s[j]
    ensures |set k | k in s| == |s|
  {
    if s == [] {
    } else {
      var n := |s| - 1;
      DistinctLength(s[..n]);
      assert s == s[..n] + [s[n]];
      assert (set k | k in s) == (set k | k in s[..n]) + {s[n]};
    }
  }

  /** The arguments: those configured, or else the role the server's address decides; then a flag and a
      label for each label, then a flag and a taint for each taint; nothing else. */
  lemma ArgsMean(cfg: Config, labels: seq<string>)
    ensures var args := Args(cfg, labels);
      var base := if cfg.k3sArgs != [] then cfg.k3sArgs else if cfg.serverUrl != "" then ["agent"] else ["server"];
      var n := |base|;
      && base <= args && |args| == n + 2 * |labels| + 2 * |cfg.taints|
      && (forall i | 0 <= i < |labels| :: args[n + 2 * i] == "--node-label" && args[n + 2 * i + 1] == labels[i])
      && (forall i | 0 <= i < |cfg.taints| ::
            && args[n + 2 * |labels| + 2 * i] == "--kubelet-arg"
            && args[n + 2 * |labels| + 2 * i + 1] == "register-with-taints=" + cfg.taints[i])
  {
    var ls := Flagged("--node-label", "", labels);
    var ts := Flagged("--kubelet-arg", "register-with-taints=", cfg.taints);
    FlaggedLength("--node-label", "", labels);
    FlaggedLength("--kubelet-arg", "register-with-taints=", cfg.taints);
    var base := BaseArgs(cfg);
    assert Args(cfg, labels) == base + ls + ts;
    forall i | 0 <= i < |labels|
      ensures (base + ls + ts)[|base| + 2 * i] == "--node-label" && (base + ls + ts)[|base| + 2 * i + 1] == labels[i]
    {
      FlaggedAt("--node-label", "", labels, i);
    }
    forall i | 0 <= i < |cfg.taints|
      ensures (base + ls + ts)[|base| + 2 * |labels| + 2 * i] == "--kubelet-arg"
      ensures (base + ls + ts)[|base| + 2 * |labels| + 2 * i + 1] == "register-with-taints=" + cfg.taints[i]
    {
      FlaggedAt("--kubelet-arg", "register-with-taints=", cfg.taints, i);
    }
  }

  lemma {:induction false} FlaggedLength(flag: string, prefix: string, values: seq<string>)
    ensures |Flagged(flag, prefix, values)| == 2 * |values|
  {
    if values == [] {
    } else {
      FlaggedLength(flag, prefix, values[..|values| - 1]);
    }
  }

  // ---------------------------------------------------------------- determinism

  function Cut(s: seq<string>, j: nat): seq<string>
    requires j < |s|
  {
    s[..j] + s[j + 1..]
  }

  lemma CutMultiset(s: seq<string>, j: nat)
    requires j < |s|
    ensures multiset(Cut(s, j)) == multiset(s) - multiset{s[j]} && s[j] in multiset(s)
  {
    assert s == s[..j] + [s[j]] + s[j + 1..];
  }

  lemma CutLabels(s: seq<string>, j: nat, labels: map<string, string>)
    requires j < |s| && forall k | k in s :: k in labels
    ensures forall k | k in Cut(s, j) :: k in labels
    ensures multiset(LabelsOf(s, labels)) == multiset(LabelsOf(Cut(s, j), labels)) + multiset{s[j] + "=" + labels[s[j]]}
  {
    var ls := LabelsOf(s, labels);
    CutMultiset(ls, j);
    assert Cut(ls, j) == LabelsOf(Cut(s, j), labels);
  }

  lemma {:induction false} SameLabels(a: seq<string>, b: seq<string>, labels: map<string, string>)
    requires forall k | k in a + b :: k in labels
    requires multiset(a) == multiset(b)
    ensures multiset(LabelsOf(a, labels)) == multiset(LabelsOf(b, labels))
    decreases |a|
  {
    if a == [] {
      assert |multiset(b)| == 0;
    } else {
      assert a[0] in multiset(b);
      var j :| 0 <= j < |b| && b[j] == a[0];
      CutMultiset(a, 0);
      CutMultiset(b, j);
      CutLabels(a, 0, labels);
      CutLabels(b, j, labels);
      SameLabels(Cut(a, 0), Cut(b, j), labels);
    }
  }

  /** Orders of one map are permutations of each other. */
  lemma OrdersPermute(a: seq<string>, b: seq<string>, m: map<string, string>)
    requires IsOrder(a, m) && IsOrder(b, m)
    ensures multiset(a) == multiset(b)
  {
    forall k
      ensures multiset(a)[k] == multiset(b)[k]
    {
      OnceEach(a, k);
      OnceEach(b, k);
    }
  }

  lemma {:induction false} OnceEach(s: seq<string>, k: string)
    requires forall i, j | 0 <= i < j < |s| :: s[i] != s[j]
    ensures multiset(s)[k] == if k in s then 1 else 0
  {
    if s == [] {
    } else {
      OnceEach(s[1..], k);
      assert s == [s[0]] + s[1..];
    }
  }

  /** Whatever order Go ranges over the labels in, the arguments come out the same. */
  lemma ArgumentsAreDetermined(cfg: Config, host: Host, a: seq<string>, sa: seq<string>, b: seq<string>, sb: seq<string>)
    requires IsOrder(a, cfg.labels) && Sorted(sa) && multiset(sa) == multiset(Generated(a, cfg, host))
    requires IsOrder(b, cfg.labels) && Sorted(sb) && multiset(sb) == multiset(Generated(b, cfg, host))
    ensures Args(cfg, sa) == Args(cfg, sb)
  {
    OrdersPermute(a, b, cfg.labels);
    SameLabels(a, b, cfg.labels);
    SortedUnique(sa, sb);
  }

  /** In the arguments the labels stand in order, each once for each time it was generated, each right
      after its flag. */
  lemma {:induction false} FlaggedAt(flag: string, prefix: string, values: seq<string>, i: nat)
    requires i < |values|
    ensures var args := Flagged(flag, prefix, values);
      |args| == 2 * |values| && args[2 * i] == flag && args[2 * i + 1] == prefix + values[i]
  {
    var n := |values| - 1;
    if i < n {
      FlaggedAt(flag, prefix, values[..n], i);
    } else if n > 0 {
      FlaggedAt(flag, prefix, values[..n], 0);
    }
  }
}
