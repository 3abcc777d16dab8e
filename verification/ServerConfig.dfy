/** The configuration that the server sends: `key:value` items joined by '|', and the part
    of checkServerConfig that changes the seismometer.
 */
module ServerConfig {
  import opened Words
  import opened HttpHead
  import opened Detection

  // ----- splitting -----

  /** std::getline on a delimiter: the item and what follows the delimiter.  Nothing comes
      after a delimiter at the very end. */
  function Item(s: string, delim: char): string {
    match Find(s, delim) case None => s case Some(i) => s[..i]
  }

  function Rest(s: string, delim: char): (r: string)
    ensures s != "" ==> |r| < |s|
  {
    match Find(s, delim) case None => "" case Some(i) => s[i + 1..]
  }

  /** An item without a colon is skipped; otherwise the first colon ends the key. */
  function Insert(m: map<string, string>, item: string): map<string, string> {
    match Find(item, ':') case None => m case Some(i) => m[item[..i] := item[i + 1..]]
  }

  function Split(s: string, delim: char, m: map<string, string>): map<string, string>
    decreases |s|
  {
    if s == "" then m else Split(Rest(s, delim), delim, Insert(m, Item(s, delim)))
  }

  method ConfigSplit(s: string, delim: char) returns (elems: map<string, string>)
    ensures elems == Split(s, delim, map[])
  {
    elems := map[];
    var ss := s;
    while ss != ""
      invariant Split(s, delim, map[]) == Split(ss, delim, elems)
      decreases |ss|
    {
      var item := Item(ss, delim);
      ss := Rest(ss, delim);
      var dppos := Find(item, ':');
      if dppos.Some? {
        elems := elems[item[..dppos.value] := item[dppos.value + 1..]];
      }
    }
  }

  // ----- joining -----

  /** An entry of the configuration, or something that is not one. */
  datatype Entry = Pair(key: string, value: string) | Junk(text: string)
  {
    function Text(): string {
      match this case Pair(k, v) => k + ":" + v case Junk(t) => t
    }

    predicate Joinable() {
      match this
      case Pair(k, v) => ':' !in k && '|' !in k && '|' !in v
      case Junk(t) => ':' !in t && '|' !in t
    }
  }

  function Join(es: seq<Entry>): string {
    if es == [] then "" else if |es| == 1 then es[0].Text() else es[0].Text() + "|" + Join(es[1..])
  }

  /** The pairs as a map in which later ones replace earlier ones. */
  function Meaning(es: seq<Entry>, m: map<string, string>): map<string, string>
    decreases |es|
  {
    if es == [] then m
    else Meaning(es[1..], match es[0] case Pair(k, v) => m[k := v] case Junk(_) => m)
  }

  /** Entry i is the last pair with this key. */
  predicate LastPair(es: seq<Entry>, i: nat, key: string)
    requires i < |es|
  {
    && es[i].Pair? && es[i].key == key
    && forall j :: i < j < |es| ==> !(es[j].Pair? && es[j].key == key)
  }

  /** A key means the value of its last pair, and nothing if it has none. */
  lemma {:induction false} MeaningIsLast(es: seq<Entry>, key: string, m: map<string, string>)
    ensures forall i :: 0 <= i < |es| && LastPair(es, i, key) ==>
              key in Meaning(es, m) && Meaning(es, m)[key] == es[i].value
    ensures (forall e :: e in es ==> !(e.Pair? && e.key == key)) ==>
              (key in Meaning(es, m) <==> key in m) && (key in m ==> Meaning(es, m)[key] == m[key])
    decreases |es|
  {
    if es != [] {
      var tail, m1 := es[1..], match es[0] case Pair(k, v) => m[k := v] case Junk(_) => m;
      assert es[0] in es && forall e :: e in tail ==> e in es;
      MeaningIsLast(tail, key, m1);
      assert Meaning(es, m) == Meaning(tail, m1);
      hide Meaning;
      forall i | 0 <= i < |es| && LastPair(es, i, key)
        ensures key in Meaning(es, m) && Meaning(es, m)[key] == es[i].value
      {
        if i > 0 {
          assert LastPair(tail, i - 1, key);
        } else {
          assert forall e :: e in tail ==> !(e.Pair? && e.key == key) by {
            forall j | 0 <= j < |tail| ensures !(tail[j].Pair? && tail[j].key == key) { assert tail[j] == es[j + 1]; }
          }
        }
      }
    }
  }

  lemma EntryInserted(e: Entry, m: map<string, string>)
    requires e.Joinable()
    ensures Insert(m, e.Text()) == match e case Pair(k, v) => m[k := v] case Junk(_) => m
    ensures '|' !in e.Text()
  {
    match e {
      case Pair(k, v) =>
        var t := k + ":" + v;
        assert forall i :: 0 <= i < |k| ==> t[i] == k[i];
        FindFirst(t, ':', |k|);
        assert t[..|k|] == k && t[|k| + 1..] == v;
      case Junk(t) =>
        NotFound(t, ':');
    }
  }

  lemma FirstItem(t: string, rest: string)
    requires '|' !in t
    ensures Item(t + "|" + rest, '|') == t && Rest(t + "|" + rest, '|') == rest
    ensures Item(t, '|') == t && Rest(t, '|') == ""
  {
    var s := t + "|" + rest;
    assert forall i :: 0 <= i < |t| ==> s[i] == t[i];
    FindFirst(s, '|', |t|);
    assert s[..|t|] == t && s[|t| + 1..] == rest;
    NotFound(t, '|');
  }

  /** Splitting the joined text gives exactly the last-wins map of the pairs; colons inside
      values survive and items without a colon are ignored. */
  lemma {:induction false} SplitOfJoin(es: seq<Entry>, m: map<string, string>)
    requires forall e :: e in es ==> e.Joinable()
    ensures Split(Join(es), '|', m) == Meaning(es, m)
    decreases |es|
  {
    if es != [] {
      var e, t := es[0], es[0].Text();
      assert e in es;
      var m1 := match e case Pair(k, v) => m[k := v] case Junk(_) => m;
      EntryInserted(e, m);
      SplitOfJoin(es[1..], m1);
      if |es| == 1 {
        FirstItem(t, "");
        assert es[1..] == [] && Join([]) == "";
        if t == "" { NotFound("", ':'); }
      } else {
        FirstItem(t, Join(es[1..]));
      }
      SplitStep(Join(es), m);
    }
  }

  lemma SplitStep(s: string, m: map<string, string>)
    ensures s != "" ==> Split(s, '|', m) == Split(Rest(s, '|'), '|', Insert(m, Item(s, '|')))
    ensures s == "" ==> Split(s, '|', m) == m
  {
  }

  // ----- applying it -----

  /** What an accepted configuration asks for: a firmware path (empty for none), a base URL, the
      NTP server, the text of the new sigma, and whether to start tracing. */
  datatype Request = Request(path: string, baseUrl: Option<string>, ntpserver: string, sigma: Option<string>,
                             trace: bool)

  /** operator[], which makes a missing value empty. */
  function Lookup(params: map<string, string>, key: string): string {
    if key in params then params[key] else ""
  }

  function RequestOf(params: map<string, string>): Request {
    var server := Lookup(params, "server");
    Request(Lookup(params, "path"), if CString(server) == "http://" then Some(server) else None,
            Lookup(params, "ntpserver"), if "sigma" in params then Some(params["sigma"]) else None,
            "trace" in params)
  }

  /** The request of a configuration text, or None if it is rejected. */
  function Accepted(cfg: string): Option<Request> {
    var params := Split(cfg, '|', map[]);
    if cfg == "" || params == map[] then None else Some(RequestOf(params))
  }

  /** The sigma that a configuration text sets, or None if it is rejected. */
  function SigmaOf(cfg: string, current: real, atof: string -> real): Option<real> {
    match Accepted(cfg)
    case None => None
    case Some(r) => Some(if r.sigma.Some? then atof(r.sigma.value) else current)
  }

  /** checkServerConfig: an accepted configuration sets sigma and starts a new period, without
      touching the threshold; any other changes nothing. */
  method CheckServerConfig(cfg: string, s: Seismometer, atof: string -> real) returns (request: Option<Request>)
    requires s.Valid() && |s.history| < TWO_32 - 2
    modifies s
    ensures s.Valid() && request == Accepted(cfg)
    ensures var sigma := SigmaOf(cfg, old(s.sigmaIter), atof);
            s.history == old(s.history) + if sigma.Some? then [SigmaSet(sigma.value), PeriodReset] else []
    ensures s.quakeThreshold == old(s.quakeThreshold)
  {
    ghost var before := s.history;
    if cfg == "" { return None; }
    var params := ConfigSplit(cfg, '|');
    if params == map[] { return None; }
    var path, server, baseUrl := Lookup(params, "path"), Lookup(params, "server"), None;
    if CString(server) == "http://" { baseUrl := Some(server); }
    var ntpserver := Lookup(params, "ntpserver");
    var text, sigma := None, s.sigmaIter;
    if "sigma" in params {
      text := Some(params["sigma"]);
      sigma := atof(params["sigma"]);
    }
    s.SetSigmaIter(sigma);
    ghost var middle := s.history;
    s.ResetLastPeriod();
    request := Some(Request(path, baseUrl, ntpserver, text, "trace" in params));
    assert middle[..|middle| - 1] == before && s.history[..|s.history| - 1] == middle;
    assert s.history == before + [SigmaSet(sigma), PeriodReset];
    ThresholdKept(before, middle, s.history, sigma);
    hide Split, After;
  }

  lemma ThresholdKept(h: seq<Event>, g: seq<Event>, f: seq<Event>, sigma: real)
    requires |f| < TWO_32 && g == h + [SigmaSet(sigma)] && f == g + [PeriodReset]
    ensures After(f).det.quakeThreshold == After(h).det.quakeThreshold
  {
    assert g[..|h|] == h && f[..|g|] == g;
    AfterLast(g);
    AfterLast(f);
    hide After;
  }

  /** What the server printed is what the sketch gets: path and NTP server are the values of their
      last pairs, or empty; the base URL is taken only if it is the bare scheme up to the first
      NUL; tracing starts if it is listed; sigma is parsed from the text in the list, or stays.
      Without a single pair the configuration is rejected. */
  lemma PrintedConfigApplied(es: seq<Entry>, current: real, atof: string -> real)
    requires forall e :: e in es ==> e.Joinable()
    ensures var m, request := Meaning(es, map[]), Accepted(Join(es));
            && (request == None <==> m == map[])
            && (request.Some? ==>
                  var r := request.value;
                  && r.path == (if "path" in m then m["path"] else "")
                  && r.ntpserver == (if "ntpserver" in m then m["ntpserver"] else "")
                  && r.trace == ("trace" in m)
                  && (r.baseUrl == if "server" in m && UpTo(m["server"], '\0') == "http://" then Some(m["server"])
                                   else None)
                  && r.sigma == (if "sigma" in m then Some(m["sigma"]) else None))
    ensures var m := Meaning(es, map[]);
            SigmaOf(Join(es), current, atof) ==
              if m == map[] then None else Some(if "sigma" in m then atof(m["sigma"]) else current)
  {
    SplitOfJoin(es, map[]);
    SplitStep(Join(es), map[]);
    assert UpTo("", '\0') == "";
    hide Join, Meaning, Split;
  }

  /** The base URL that the server names is ignored, unless it is the bare scheme. */
  lemma BaseUrlIgnored(params: map<string, string>)
    requires "server" in params && '\0' !in params["server"]
    ensures RequestOf(params).baseUrl == if params["server"] == "http://" then Some("http://") else None
  {
    UpToIs(params["server"], params["server"], '\0');
  }
}
