/** ParseVcap: finding the credentials of a bound service in the Cloud
    Foundry VCAP_SERVICES document. */
module Vcap {
  import opened Base

  /** One bound service; only its tags and credentials are consulted. The
      credential values are the strings `%s` formats them as. */
  datatype Service = Service(tags: seq<string>, credentials: map<string, string>)

  /** The service carries at least one of the wanted tags. */
  predicate Tagged(s: Service, tags: seq<string>)
  {
    exists actual :: actual in s.tags && actual in tags
  }

  /** The service is tagged and has the credential key. */
  predicate Qualifies(s: Service, tags: seq<string>, subkey: string)
  {
    Tagged(s, tags) && subkey in s.credentials
  }

  /** No service before position (i, j), in list order and then service
      order, qualifies. */
  ghost predicate NoneBefore(ss: seq<seq<Service>>, tags: seq<string>, subkey: string, i: nat, j: nat)
    requires i < |ss|
  {
    && (forall a, b :: 0 <= a < i && 0 <= b < |ss[a]| ==> !Qualifies(ss[a][b], tags, subkey))
    && (forall b :: 0 <= b < j && b < |ss[i]| ==> !Qualifies(ss[i][b], tags, subkey))
  }

  /** The tag search: stops at the first actual tag that is among the wanted
      ones. */
  method IsTagged(s: Service, tags: seq<string>) returns (tagged: bool)
    ensures tagged <==> Tagged(s, tags)
  {
    tagged := false;
    label TAGS:
    for k := 0 to |s.tags|
      invariant !tagged
      invariant forall a :: 0 <= a < k ==> s.tags[a] !in tags
    {
      for m := 0 to |tags|
        invariant forall b :: 0 <= b < m ==> tags[b] != s.tags[k]
      {
        if tags[m] == s.tags[k] {
          assert Tagged(s, tags) by { assert s.tags[k] in s.tags; }
          tagged := true;
          break TAGS;
        }
      }
    }
  }

  /** `services` is the decoded document, its service lists in the order the
      map is ranged over, or None when it does not decode. The result is the
      credential of the first service, in that order, that is tagged with
      one of `tags` and has the key `subkey`. */
  method ParseVcap(services: Option<seq<seq<Service>>>, tags: seq<string>, subkey: string) returns (r: Result<string>)
    ensures services.None? ==> r == Err(MalformedServices)
    ensures services.Some? ==> (r.Ok? <==>
      exists i, j :: 0 <= i < |services.value| && 0 <= j < |services.value[i]| && Qualifies(services.value[i][j], tags, subkey))
    ensures services.Some? && r.Err? ==> r.error == NoSatisfactoryService
    ensures tags == [] ==> r.Err?
    ensures services.Some? && r.Ok? ==> exists i, j :: (0 <= i < |services.value| && 0 <= j < |services.value[i]|
      && Qualifies(services.value[i][j], tags, subkey) && NoneBefore(services.value, tags, subkey, i, j)
      && r.value == services.value[i][j].credentials[subkey])
  {
    if services.None? {
      return Err(MalformedServices);
    }
    var ss := services.value;
    for i := 0 to |ss|
      invariant forall a, b :: 0 <= a < i && 0 <= b < |ss[a]| ==> !Qualifies(ss[a][b], tags, subkey)
    {
      for j := 0 to |ss[i]|
        invariant forall a, b :: 0 <= a < i && 0 <= b < |ss[a]| ==> !Qualifies(ss[a][b], tags, subkey)
        invariant forall b :: 0 <= b < j ==> !Qualifies(ss[i][b], tags, subkey)
      {
        var service := ss[i][j];
        var tagged := IsTagged(service, tags);
        if !tagged {
          continue;
        }
        if subkey in service.credentials {
          assert NoneBefore(ss, tags, subkey, i, j);
          return Ok(service.credentials[subkey]);
        }
      }
    }
    return Err(NoSatisfactoryService);
  }
}
