/** The two maps the downloader keeps of the downloads in progress. */
module Downloaders {
  import opened Collections

  datatype Download = Download(identifier: string, server: string)

  function Dropped(s: seq<string>, id: string): seq<string> {
    if s == [] then [] else
      var init, last := s[..|s| - 1], s[|s| - 1];
      if last != id then Dropped(init, id) + [last] else Dropped(init, id)
  }

  lemma {:induction false} DroppedMeaning(s: seq<string>, id: string)
    requires Distinct(s)
    ensures Distinct(Dropped(s, id)) && forall k :: k in Dropped(s, id) <==> k in s && k != id
  {
    if s != [] {
      var init, last := s[..|s| - 1], s[|s| - 1];
      assert s == init + [last];
      DroppedMeaning(init, id);
      assert last !in init;
    }
  }

  /** The others keep their order. */
  lemma {:induction false} DroppedAt(s: seq<string>, i: nat)
    requires Distinct(s) && i < |s|
    ensures Dropped(s, s[i]) == s[..i] + s[i + 1..]
  {
    var n := |s| - 1;
    var init := s[..n];
    if i == n {
      DroppedAbsent(init, s[i]);
    } else {
      DroppedAt(init, i);
      assert s[i + 1..] == init[i + 1..] + [s[n]];
    }
  }

  lemma {:induction false} DroppedAbsent(s: seq<string>, id: string)
    requires id !in s
    ensures Dropped(s, id) == s
  {
    if s != [] {
      DroppedAbsent(s[..|s| - 1], id);
    }
  }

  function ListOf(servers: map<string, seq<string>>, sid: string): seq<string> {
    if sid in servers then servers[sid] else []
  }

  /** The maps agree: the list of a server names exactly its downloads, each once. */
  ghost predicate Agree(downloads: map<string, Download>, servers: map<string, seq<string>>) {
    && (forall id :: id in downloads ==> downloads[id].identifier == id)
    && (forall sid {:trigger ListOf(servers, sid)} :: ListAgrees(downloads, ListOf(servers, sid), sid))
  }

  ghost predicate ListAgrees(downloads: map<string, Download>, list: seq<string>, sid: string) {
    Distinct(list) && forall id :: id in list <==> id in downloads && downloads[id].server == sid
  }

  lemma TrackAgrees(downloads: map<string, Download>, servers: map<string, seq<string>>, dl: Download)
    requires Agree(downloads, servers) && dl.identifier !in downloads
    ensures Agree(downloads[dl.identifier := dl], servers[dl.server := ListOf(servers, dl.server) + [dl.identifier]])
  {
    var servers' := servers[dl.server := ListOf(servers, dl.server) + [dl.identifier]];
    forall sid ensures ListAgrees(downloads[dl.identifier := dl], ListOf(servers', sid), sid) {
      assert ListAgrees(downloads, ListOf(servers, sid), sid);
      assert dl.identifier !in ListOf(servers, sid);
    }
  }

  lemma RemoveAgrees(downloads: map<string, Download>, servers: map<string, seq<string>>, id: string)
    requires Agree(downloads, servers) && id in downloads
    ensures var sid := downloads[id].server;
      && sid in servers
      && Agree(downloads - {id}, servers[sid := Dropped(servers[sid], id)])
      && (forall s :: s != sid ==> Dropped(ListOf(servers, s), id) == ListOf(servers, s))
  {
    var sid := downloads[id].server;
    assert ListAgrees(downloads, ListOf(servers, sid), sid);
    assert id in ListOf(servers, sid);
    DroppedMeaning(servers[sid], id);
    var servers' := servers[sid := Dropped(servers[sid], id)];
    forall s ensures ListAgrees(downloads - {id}, ListOf(servers', s), s) {
      assert ListAgrees(downloads, ListOf(servers, s), s);
    }
    forall s | s != sid ensures Dropped(ListOf(servers, s), id) == ListOf(servers, s) {
      assert ListAgrees(downloads, ListOf(servers, s), s);
      DroppedAbsent(ListOf(servers, s), id);
    }
  }

  class Downloader {
    var downloadCache: map<string, Download>
    var serverCache: map<string, seq<string>>

    /** The identifiers the second map lists for a server. */
    function Listed(sid: string): seq<string>
      reads this
    {
      ListOf(serverCache, sid)
    }

    ghost predicate Valid()
      reads this
    {
      Agree(downloadCache, serverCache)
    }

    constructor ()
      ensures Valid() && downloadCache == map[]
    {
      downloadCache, serverCache := map[], map[];
    }

    /** A download whose identifier is tracked already is not tracked again. */
    method Track(dl: Download)
      requires Valid()
      modifies this
      ensures Valid()
      ensures dl.identifier in old(downloadCache) ==> downloadCache == old(downloadCache) && serverCache == old(serverCache)
      ensures dl.identifier !in old(downloadCache) ==>
        && downloadCache == old(downloadCache)[dl.identifier := dl]
        && (forall sid :: Listed(sid) == if sid == dl.server then old(Listed(sid)) + [dl.identifier] else old(Listed(sid)))
    {
      var sid := dl.server;
      if dl.identifier !in downloadCache {
        TrackAgrees(downloadCache, serverCache, dl);
        downloadCache := downloadCache[dl.identifier := dl];
        if sid !in serverCache {
          serverCache := serverCache[sid := []];
        }
        serverCache := serverCache[sid := serverCache[sid] + [dl.identifier]];
        assert serverCache == old(serverCache)[sid := ListOf(old(serverCache), sid) + [dl.identifier]];
      }
    }

    method Find(id: string) returns (dl: Option<Download>)
      ensures dl == if id in downloadCache then Some(downloadCache[id]) else None
    {
      if id in downloadCache {
        return Some(downloadCache[id]);
      }
      return None;
    }

    method Remove(id: string)
      requires Valid()
      modifies this
      ensures Valid() && downloadCache == old(downloadCache) - {id}
      ensures id !in old(downloadCache) ==> serverCache == old(serverCache)
      ensures id in old(downloadCache) ==> forall sid :: Listed(sid) == Dropped(old(Listed(sid)), id)
    {
      if id !in downloadCache {
        return;
      }
      RemoveAgrees(downloadCache, serverCache, id);
      var sid := downloadCache[id].server;
      downloadCache := downloadCache - {id};
      if sid in serverCache {
        var out := Rebuild(serverCache[sid], id);
        serverCache := serverCache[sid := out];
      }
    }

    /** The loop of Remove. */
    static method Rebuild(tracked: seq<string>, id: string) returns (out: seq<string>)
      ensures out == Dropped(tracked, id)
    {
      out := [];
      for i := 0 to |tracked|
        invariant out == Dropped(tracked[..i], id)
      {
        assert tracked[..i + 1][..i] == tracked[..i];
        if tracked[i] != id {
          out := out + [tracked[i]];
        }
      }
      assert tracked[..|tracked|] == tracked;
    }

    /** All downloads of a server, in the order they were tracked. */
    method ByServer(sid: string) returns (downloads: seq<Download>)
      requires Valid()
      ensures |downloads| == |Listed(sid)|
      ensures forall i :: 0 <= i < |downloads| ==>
        Listed(sid)[i] in downloadCache && downloads[i] == downloadCache[Listed(sid)[i]] && downloads[i].server == sid
      ensures forall id :: id in downloadCache && downloadCache[id].server == sid ==> downloadCache[id] in downloads
    {
      downloads := [];
      assert ListAgrees(downloadCache, Listed(sid), sid);
      if sid in serverCache {
        var ids := serverCache[sid];
        for i := 0 to |ids|
          invariant |downloads| == i
          invariant forall j :: 0 <= j < i ==> ids[j] in downloadCache && downloads[j] == downloadCache[ids[j]]
        {
          assert ids[i] in Listed(sid);
          if ids[i] in downloadCache {
            downloads := downloads + [downloadCache[ids[i]]];
          }
        }
      }
      forall id | id in downloadCache && downloadCache[id].server == sid ensures downloadCache[id] in downloads {
        assert id in Listed(sid);
        var i :| 0 <= i < |Listed(sid)| && Listed(sid)[i] == id;
        assert downloads[i] == downloadCache[id];
      }
    }
  }
}
