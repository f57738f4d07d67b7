/** The session registry: a table of sessions keyed by a session id or by
    the no-web composite `"url-database-username"`, the lookup that reuses a
    registered session or builds a new one, the registration that writes the
    table and mirrors the web session into the external cache, and the
    reset. */
module SessionRegistry {
  import opened Values
  import opened RubyText

  /** The `:noweb` session id. */
  const NoWeb: Value := Sym("noweb")

  /** `noweb_session_spec`: the url, database and username interpolated and
      joined by dashes. */
  function NoWebSpec(config: Hash): string {
    ToS(Get(config, "url")) + "-" + ToS(Get(config, "database")) + "-" + ToS(Get(config, "username"))
  }

  /** `id ||= SecureRandom.hex(16)`, the random hex digits given as a
      parameter. The id is truthy afterwards. */
  function EffectiveId(id: Value, randomHex: string): (r: Value)
    ensures Truthy(r)
    ensures Truthy(id) ==> r == id
  {
    if Truthy(id) then id else Str(randomHex)
  }

  /** The table key `retrieve_session` looks up: the no-web composite for
      `:noweb`, the id itself otherwise. */
  function LookupKey(config: Hash, id: Value): (r: Value)
    ensures id != NoWeb ==> r == id
    ensures id == NoWeb ==> r == Str(NoWebSpec(config))
  {
    if id == NoWeb then Str(NoWebSpec(config)) else id
  }

  /** The table key `register_session` writes: the web session's
      `:session_id` when `:session_sharing` is truthy, else the id unless it
      is `:noweb`, else the no-web composite. */
  function RegistrationKey(config: Hash, webSession: Hash, id: Value): Value {
    if Truthy(Get(config, "session_sharing")) then Get(webSession, "session_id")
    else if id != NoWeb then id
    else Str(NoWebSpec(config))
  }

  /** `Ooor.default_config.merge(config)` when the default configuration is a
      hash, `config` itself otherwise. */
  function WithDefaults(defaultConfig: Option<Hash>, config: Hash): (r: Hash)
    ensures forall k | k in config :: k in r && r[k] == config[k]
    ensures defaultConfig.Some? ==> r.Keys == defaultConfig.value.Keys + config.Keys
    ensures defaultConfig.Some? ==>
      forall k | k in defaultConfig.value && k !in config :: r[k] == defaultConfig.value[k]
    ensures defaultConfig.None? ==> r == config
  {
    if defaultConfig.Some? then defaultConfig.value + config else config
  }

  /** A session: its configuration, its web session (a hash updated in
      place) and its id. */
  class Session {
    const config: Hash
    var webSession: Hash
    const id: Value

    /** `Ooor::Session.new(config, web_session, id)`, as far as the registry
        reads the session. */
    constructor(config: Hash, webSession: Hash, id: Value)
      ensures this.config == config && this.webSession == webSession && this.id == id
    {
      this.config := config;
      this.webSession := webSession;
      this.id := id;
    }
  }

  /** Whether `retrieve_session` returns the session stored under `key`: no
      truthy `:reload`, a session is stored, and its composite equals the
      requested one. */
  predicate Reusable(sessions: map<Value, Session>, key: Value, config: Hash) {
    && !Truthy(Get(config, "reload"))
    && key in sessions
    && NoWebSpec(sessions[key].config) == NoWebSpec(config)
  }

  class SessionHandler {
    /** The session table. */
    var sessions: map<Value, Session>
    /** The connection table; only `reset!` touches it here. */
    var connections: map<Value, Value>
    /** The external web-session cache, as far as this handler writes it. */
    ghost var cache: map<Value, Hash>

    /** Every registered key has had its web session written to the cache. */
    ghost predicate Valid()
      reads this
    {
      sessions.Keys <= cache.Keys
    }

    /** A handler whose `sessions` and `connections` read as empty: the lazy
        `@sessions ||= {}` and `@connections ||= {}` give empty tables on
        first use. */
    constructor(ghost initialCache: map<Value, Hash>)
      ensures Valid()
      ensures sessions == map[] && connections == map[] && cache == initialCache
    {
      sessions := map[];
      connections := map[];
      cache := initialCache;
    }

    /** `retrieve_session(config, id, web_session)`. The table is only read.
        The stored session is returned, with `webSession` merged into its own,
        exactly when it is reusable; otherwise a new, unregistered session is
        built from the defaulted configuration. No other session changes. */
    method RetrieveSession(config: Hash, id: Value, webSession: Hash,
                           randomHex: string, defaultConfig: Option<Hash>)
      returns (s: Session)
      requires Valid()
      modifies sessions.Values
      ensures Valid()
      ensures sessions == old(sessions) && connections == old(connections) && cache == old(cache)
      ensures var key := LookupKey(config, EffectiveId(id, randomHex));
        if Reusable(sessions, key, config) then
          s == sessions[key] && s.webSession == old(s.webSession) + webSession
        else
          && fresh(s)
          && s.config == WithDefaults(defaultConfig, config)
          && s.webSession == webSession
          && s.id == EffectiveId(id, randomHex)
      ensures forall t | t in sessions.Values && t != s :: t.webSession == old(t.webSession)
    {
      var eid := EffectiveId(id, randomHex);
      var key := LookupKey(config, eid);
      if Truthy(Get(config, "reload")) || key !in sessions {
        s := new Session(WithDefaults(defaultConfig, config), webSession, eid);
      } else if NoWebSpec(sessions[key].config) != NoWebSpec(config) {
        s := new Session(WithDefaults(defaultConfig, config), webSession, eid);
      } else {
        s := sessions[key];
        s.webSession := s.webSession + webSession;
      }
    }

    /** `register_session(session)`: the web session goes to the cache and the
        session to the table, both under the registration key; every other
        entry stays. */
    method RegisterSession(session: Session)
      requires Valid()
      modifies this
      ensures Valid()
      ensures var key := RegistrationKey(session.config, session.webSession, session.id);
        && sessions == old(sessions)[key := session]
        && cache == old(cache)[key := session.webSession]
      ensures connections == old(connections)
    {
      var key := RegistrationKey(session.config, session.webSession, session.id);
      cache := cache[key := session.webSession];
      sessions := sessions[key := session];
    }

    /** `reset!`: both tables become empty; the cache is not touched. */
    method Reset()
      requires Valid()
      modifies this
      ensures Valid()
      ensures sessions == map[] && connections == map[] && cache == old(cache)
    {
      sessions := map[];
      connections := map[];
    }
  }

  // ---- Lemmas --------------------------------------------------------------

  /** When neither the url nor the database holds a dash, the composite
      determines all three parts. */
  lemma NoWebSpecInjective(c1: Hash, c2: Hash)
    requires '-' !in ToS(Get(c1, "url")) && '-' !in ToS(Get(c1, "database"))
    requires '-' !in ToS(Get(c2, "url")) && '-' !in ToS(Get(c2, "database"))
    requires NoWebSpec(c1) == NoWebSpec(c2)
    ensures ToS(Get(c1, "url")) == ToS(Get(c2, "url"))
    ensures ToS(Get(c1, "database")) == ToS(Get(c2, "database"))
    ensures ToS(Get(c1, "username")) == ToS(Get(c2, "username"))
  {
    NoWebSpecParts(c1);
    NoWebSpecParts(c2);
  }

  /** With dash-free urls and databases, two configurations share a no-web
      lookup key exactly when their url, database and username read the same. */
  lemma NoWebKeyIffSameTriple(c1: Hash, c2: Hash)
    requires '-' !in ToS(Get(c1, "url")) && '-' !in ToS(Get(c1, "database"))
    requires '-' !in ToS(Get(c2, "url")) && '-' !in ToS(Get(c2, "database"))
    ensures LookupKey(c1, NoWeb) == LookupKey(c2, NoWeb) <==>
      && ToS(Get(c1, "url")) == ToS(Get(c2, "url"))
      && ToS(Get(c1, "database")) == ToS(Get(c2, "database"))
      && ToS(Get(c1, "username")) == ToS(Get(c2, "username"))
  {
    if LookupKey(c1, NoWeb) == LookupKey(c2, NoWeb) {
      NoWebSpecInjective(c1, c2);
    }
  }

  /** Reading a dash-free url and database back out of the composite. */
  lemma NoWebSpecParts(c: Hash)
    requires '-' !in ToS(Get(c, "url")) && '-' !in ToS(Get(c, "database"))
    ensures var spec := NoWebSpec(c);
      && '-' in spec
      && Before(spec, '-') == ToS(Get(c, "url"))
      && '-' in After(spec, '-')
      && Before(After(spec, '-'), '-') == ToS(Get(c, "database"))
      && After(After(spec, '-'), '-') == ToS(Get(c, "username"))
  {
    var url := ToS(Get(c, "url"));
    var db := ToS(Get(c, "database"));
    var user := ToS(Get(c, "username"));
    var rest := db + "-" + user;
    assert NoWebSpec(c) == url + ['-'] + rest;
    BeforeAfterSplice(url, rest, '-');
    assert rest == db + ['-'] + user;
    BeforeAfterSplice(db, user, '-');
  }

  /** With a dash in the database or username, two configurations for
      different databases share one composite, and so one no-web session. */
  lemma NoWebSpecCollision()
    ensures var c1 := map["url" := Str("http://h:8069"), "database" := Str("prod"), "username" := Str("team-admin")];
            var c2 := map["url" := Str("http://h:8069"), "database" := Str("prod-team"), "username" := Str("admin")];
      && Get(c1, "database") != Get(c2, "database")
      && NoWebSpec(c1) == NoWebSpec(c2)
  {
    var c1 := map["url" := Str("http://h:8069"), "database" := Str("prod"), "username" := Str("team-admin")];
    var c2 := map["url" := Str("http://h:8069"), "database" := Str("prod-team"), "username" := Str("admin")];
    assert Get(c1, "database") == Str("prod");
    assert Get(c2, "database") == Str("prod-team");
    assert NoWebSpec(c1) == "http://h:8069" + "-" + "prod" + "-" + "team-admin";
    assert NoWebSpec(c2) == "http://h:8069" + "-" + "prod-team" + "-" + "admin";
  }

  /** A session registered without sharing is found again under the key a
      lookup with the same id computes; with sharing it is filed under the web
      session's `:session_id` instead. */
  lemma RegistrationMatchesLookup(config: Hash, webSession: Hash, id: Value, randomHex: string)
    requires Truthy(id)
    ensures !Truthy(Get(config, "session_sharing")) ==>
              RegistrationKey(config, webSession, id) == LookupKey(config, EffectiveId(id, randomHex))
    ensures Truthy(Get(config, "session_sharing")) ==>
              RegistrationKey(config, webSession, id) == Get(webSession, "session_id")
  {
  }

  /** Registering a no-web session and then asking for a no-web session with
      a configuration of the same composite, without `:reload`, gives back
      the registered instance. */
  lemma RegisterThenRetrieveNoWeb(sessions: map<Value, Session>, s: Session, config: Hash, randomHex: string)
    requires s.id == NoWeb && !Truthy(Get(s.config, "session_sharing"))
    requires !Truthy(Get(config, "reload")) && NoWebSpec(config) == NoWebSpec(s.config)
    ensures var table := sessions[RegistrationKey(s.config, s.webSession, s.id) := s];
            var key := LookupKey(config, EffectiveId(NoWeb, randomHex));
      && Reusable(table, key, config)
      && table[key] == s
  {
  }
}
