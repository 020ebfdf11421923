/** fxLinkerScriptCallback: the module of a preloaded script asks for its host objects and
    host functions. The first script with that path decodes its packed host table, keeps
    the builder and callback-name records, and one fake callback is handed out per entry. */
module Scripts {
  import opened Slots
  import opened Hosts
  import HostsLoop
  import Resolve

  /** A preloaded script as the linker keeps it: its path (relative to the linker's base),
      its packed host table if it has one, and the records decoding that table fills in. */
  class LinkerScript {
    const path: string
    const hostsBuffer: Option<seq<byte>>
    var builders: seq<Builder>
    var callbackNames: seq<CallbackName>
    var hostsCount: int

    constructor (path: string, hostsBuffer: Option<seq<byte>>)
      ensures this.path == path && this.hostsBuffer == hostsBuffer
      ensures builders == [] && callbackNames == [] && hostsCount == 0
    {
      this.path, this.hostsBuffer := path, hostsBuffer;
      builders, callbackNames, hostsCount := [], [], 0;
    }
  }

  /** The first script in the linker's list with the given path. */
  function Matching(scripts: seq<LinkerScript>, path: string): (r: Option<nat>)
    ensures r.Some? ==> r.value < |scripts| && scripts[r.value].path == path
    ensures r.Some? ==> forall j :: 0 <= j < r.value ==> scripts[j].path != path
    ensures r.None? <==> forall j :: 0 <= j < |scripts| ==> scripts[j].path != path
  {
    if scripts == [] then None
    else if scripts[0].path == path then Some(0)
    else
      match Matching(scripts[1..], path)
      case None => None
      case Some(j) => Some(j + 1)
  }

  /** The scripts a call for `path` may change: the matching one, if any. */
  function Matched(scripts: seq<LinkerScript>, path: string): set<LinkerScript> {
    match Matching(scripts, path)
    case None => {}
    case Some(k) => {scripts[k]}
  }

  /** fxLinkerScriptCallback for the module at `path`, the fake callback counter at `fake`.
      Without a matching script, or when the matching script has no host table, the result
      is an empty array and nothing changes. Otherwise the table is decoded: the script
      keeps its builders, its callback names and the count, the result holds one host
      object or host function per entry, and the counter has moved past the callbacks
      handed out (none for a count that is not positive). Only the first matching script
      is considered. A table that cannot be decoded changes nothing. */
  method ScriptCallback(order: ByteOrder, scripts: seq<LinkerScript>, path: string, fake: int)
    returns (r: Result<seq<Host>>, fake': int)
    modifies Matched(scripts, path)
    ensures Matching(scripts, path).None? ==> r == Ok([]) && fake' == fake
    ensures Matching(scripts, path).Some? ==>
              var sc := scripts[Matching(scripts, path).value];
              match sc.hostsBuffer
              case None => r == Ok([]) && fake' == fake && unchanged(sc)
              case Some(buf) =>
                match HostTable(order, buf, fake)
                case Fail(x) => r == Fail(x) && fake' == fake && unchanged(sc)
                case Ok(t) =>
                  && r == Ok(t.hosts) && fake' == fake + (if t.count < 0 then 0 else t.count)
                  && sc.builders == t.builders && sc.callbackNames == t.names && sc.hostsCount == t.count
  {
    var k := 0;
    while k < |scripts| && scripts[k].path != path
      invariant k <= |scripts| && forall j :: 0 <= j < k ==> scripts[j].path != path
    {
      k := k + 1;
    }
    if k == |scripts| {
      return Ok([]), fake;
    }
    var sc := scripts[k];
    if sc.hostsBuffer.None? {
      return Ok([]), fake;
    }
    var buf := sc.hostsBuffer.value;
    var table := HostsLoop.LoadHosts(order, buf, fake);
    if table.Fail? {
      return Fail(table.error), fake;
    }
    var t := table.value;
    HostTableRecords(order, buf, fake);
    sc.builders, sc.callbackNames, sc.hostsCount := t.builders, t.names, t.count;
    r, fake' := Ok(t.hosts), fake + |t.hosts|;
  }

  /** Once a script holds the callback names of a decoded table, the fake callback of entry
      `i` resolves through fxGetCallbackName to that entry's name, provided no earlier script
      claims it and the callback is not NULL. */
  lemma DecodedCallbackNamed(order: ByteOrder, buf: seq<byte>, fake: int, i: nat,
                             scripts: seq<Resolve.Script>, k: nat)
    requires HostTable(order, buf, fake).Ok?
    requires i < |HostTable(order, buf, fake).value.names| && fake + i != 0
    requires k < |scripts| && scripts[k].callbackNames == HostTable(order, buf, fake).value.names
    requires forall l, j :: 0 <= l < k && 0 <= j < |scripts[l].callbackNames| ==>
               scripts[l].callbackNames[j].callback != fake + i
    ensures Resolve.CallbackNameOf(None, scripts, fake + i) == Resolve.Named(HostTable(order, buf, fake).value.names[i].name)
  {
    var t := HostTable(order, buf, fake).value;
    HostTableRecords(order, buf, fake);
    var names := scripts[k].callbackNames;
    assert names[i].callback == fake + i;
    var r := Resolve.CallbackNameOf(None, scripts, fake + i);
    assert !r.NoCallback?;
    var k', i' :| 0 <= k' < |scripts| && 0 <= i' < |scripts[k'].callbackNames|
                  && scripts[k'].callbackNames[i'] == CallbackName(fake + i, r.name)
                  && (forall j :: 0 <= j < i' ==> scripts[k'].callbackNames[j].callback != fake + i)
                  && forall l, j :: 0 <= l < k' && 0 <= j < |scripts[l].callbackNames| ==>
                       scripts[l].callbackNames[j].callback != fake + i;
    assert k' == k;
    assert i' == i;
  }
}
