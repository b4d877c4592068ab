/** The project registry with its circuit breaker and its cache. */
module Registry {
  import opened Common

  /** Milliseconds since the registry was created. */
  type Time = nat

  datatype Request = Request(id: string, includeLimits: bool, includeFeatures: bool)

  datatype ProjectDataError = NotFound | RegistryConfigError | RegistryTemporarilyUnavailable

  type Project = int

  type ProjectDataResult = Result<Project, ProjectDataError>

  /** What the registry client may return. */
  datatype Answer = Found(project: Project) | Missing | ConfigError | OtherError

  datatype CacheEntry = CacheEntry(data: ProjectDataResult, expiresAt: Time)

  type Cache = map<string, CacheEntry>

  datatype Source = FromCache | FromRegistry

  datatype RpcError = StorageFailure | ProjectData(error: ProjectDataError)

  // ---------------------------------------------------------------- cache keys

  function Flags(r: Request): char {
    if r.includeLimits then (if r.includeFeatures then '3' else '1')
    else (if r.includeFeatures then '2' else '0')
  }

  function CacheKey(r: Request): string {
    "project-data-v3/" + r.id + "/" + [Flags(r)]
  }

  /** The key is the fixed prefix, the id, and one digit: 1 for limits plus 2 for features. */
  lemma CacheKeyParts(r: Request)
    ensures var key := CacheKey(r);
            && |key| == |r.id| + 18
            && key[..16] == "project-data-v3/" && key[16..|key| - 2] == r.id && key[|key| - 2] == '/'
            && key[|key| - 1] as int
               == '0' as int + (if r.includeLimits then 1 else 0) + (if r.includeFeatures then 2 else 0)
  {
    var key := CacheKey(r);
    assert forall i :: 0 <= i < |r.id| ==> key[16 + i] == r.id[i];
  }

  /** Different requests never share a cache entry, even if an id contains the separator. */
  lemma CacheKeyInjective(a: Request, b: Request)
    requires CacheKey(a) == CacheKey(b)
    ensures a == b
  {
    CacheKeyParts(a);
    CacheKeyParts(b);
  }

  // ---------------------------------------------------------------- the breaker

  /** `lastError == 0` says that no error is known, so an error in millisecond 0 is not seen. */
  predicate IsOpen(lastError: Time, cooldown: Time, now: Time) {
    cooldown != 0 && lastError != 0 && (if now >= lastError then now - lastError else 0) < cooldown
  }

  predicate IsTransient(a: Answer) {
    a == OtherError
  }

  function Cacheable(a: Answer): ProjectDataResult
    requires !IsTransient(a)
  {
    match a
    case Found(p) => Ok(p)
    case Missing => Err(NotFound)
    case ConfigError => Err(RegistryConfigError)
  }

  predicate Hit(cache: Cache, key: string, now: Time) {
    key in cache && now < cache[key].expiresAt
  }

  /** Reading the cache: an entry that cannot be decoded counts as a miss, any other failure ends the request. */
  datatype CacheRead = Decoded | Undecodable | Unavailable

  /** A cache write that has been handed to a background task and may still fail. */
  datatype PendingWrite = PendingWrite(key: string, data: ProjectDataResult)

  class ProjectRegistry {
    var lastError: Time
    var cache: Option<Cache>
    var pending: seq<PendingWrite>
    const cooldown: Time
    const ttl: Time

    constructor (cooldown: Time, ttl: Time, cached: bool)
      ensures lastError == 0 && pending == [] && this.cooldown == cooldown && this.ttl == ttl
      ensures cache == if cached then Some(map[]) else None
    {
      this.cooldown, this.ttl := cooldown, ttl;
      lastError, pending := 0, [];
      cache := if cached then Some(map[]) else None;
    }

    predicate IsCircuitOpen(now: Time)
      reads this
    {
      IsOpen(lastError, cooldown, now)
    }

    method OpenCircuit(now: Time)
      modifies this`lastError
      ensures lastError == now
    {
      lastError := now;
    }

    /**
     * One request from start to end. `read` is how the cache can be read at `asked`, `answer` is
     * what the registry says if it is asked at `checked`, and `answered` is when it says it.
     */
    method ProjectDataInternal(request: Request, read: CacheRead, asked: Time, checked: Time, answer: Answer,
                               answered: Time)
      returns (r: Result<(Source, ProjectDataResult), RpcError>, fetched: bool)
      modifies this`lastError, this`pending
      ensures cache.Some? && read == Unavailable ==> r == Err(StorageFailure) && !fetched
      ensures cache.Some? && read == Decoded && Hit(cache.value, CacheKey(request), asked) ==>
                r == Ok((FromCache, cache.value[CacheKey(request)].data)) && !fetched
      ensures (cache.Some? ==>
                 read == Undecodable || (read == Decoded && !Hit(cache.value, CacheKey(request), asked))) ==>
                && (fetched <==> cooldown == 0 || old(lastError) == 0 || checked >= old(lastError) + cooldown)
                && (!fetched ==> r == Err(ProjectData(RegistryTemporarilyUnavailable)))
                && (fetched ==>
                      match answer
                      case Found(project) => r == Ok((FromRegistry, Ok(project)))
                      case Missing => r == Ok((FromRegistry, Err(NotFound)))
                      case ConfigError => r == Ok((FromRegistry, Err(RegistryConfigError)))
                      case OtherError => r == Err(ProjectData(RegistryTemporarilyUnavailable)))
      ensures lastError == if fetched && answer == OtherError then answered else old(lastError)
      ensures pending == if fetched && r.Ok? && cache.Some?
                         then old(pending) + [PendingWrite(CacheKey(request), r.value.1)] else old(pending)
    {
      fetched := false;
      if cache.Some? {
        if read == Unavailable {
          return Err(StorageFailure), false;
        }
        if read == Decoded && Hit(cache.value, CacheKey(request), asked) {
          return Ok((FromCache, cache.value[CacheKey(request)].data)), false;
        }
      }
      if IsCircuitOpen(checked) {
        return Err(ProjectData(RegistryTemporarilyUnavailable)), false;
      }
      fetched := true;
      var data: ProjectDataResult;
      match answer {
        case Found(p) => data := Ok(p);
        case Missing => data := Err(NotFound);
        case ConfigError => data := Err(RegistryConfigError);
        case OtherError =>
          OpenCircuit(answered);
          return Err(ProjectData(RegistryTemporarilyUnavailable)), true;
      }
      if cache.Some? {
        pending := pending + [PendingWrite(CacheKey(request), data)];
      }
      return Ok((FromRegistry, data)), true;
    }

    /** The background task of one pending write, which may fail. */
    method FinishWrite(index: nat, succeeds: bool, now: Time)
      requires cache.Some? && index < |pending|
      modifies this`cache, this`pending
      ensures pending == old(pending)[..index] + old(pending)[index + 1..]
      ensures cache.Some? && old(cache).value.Keys <= cache.value.Keys
      ensures forall key, at: Time :: key in cache.value ==>
                                  if succeeds && key == old(pending)[index].key
                                  then cache.value[key].data == old(pending)[index].data
                                       && (Hit(cache.value, key, at) <==> at < now + ttl)
                                  else key in old(cache).value && cache.value[key] == old(cache).value[key]
      ensures succeeds ==> old(pending)[index].key in cache.value
      ensures cache == Some(if succeeds
                            then old(cache).value[old(pending)[index].key := CacheEntry(old(pending)[index].data, now + ttl)]
                            else old(cache).value)
    {
      var write := pending[index];
      pending := pending[..index] + pending[index + 1..];
      if succeeds {
        cache := Some(cache.value[write.key := CacheEntry(write.data, now + ttl)]);
      }
    }
  }
}
