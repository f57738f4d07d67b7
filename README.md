# OOOR session handling, modelled in Dafny

OOOR is a Ruby client for OpenERP/Odoo. This project models the part of it
that turns connection settings into sessions.

- **Connection strings** (`ConnectionString`, over `RubyText` and `Values`).
  `SessionHandler#parse_connection_string` and `#parse_host_port` rewrite a
  descriptor such as `ooor://user:pw@host:8069/db -s`:
  - prefixes are normalised;
  - the first `//` is dropped;
  - the SSL markers `?ssl=true`, `ssl=true` and ` -s` are removed.

  The rest is split on `@`, `/`, `:` and `.`. The result is a hash with `url`
  and `username`, plus `database` and `password` when they are found. The
  model is a pure function. It reproduces the Ruby primitives the parser
  relies on:
  - `sub!` with a line-anchored regular expression;
  - `gsub!`, which returns nil when nothing matches;
  - `String#split`, which drops trailing empty fields;
  - `String#to_i`;
  - ActiveSupport's `blank?`.

  Inputs on which Ruby raises give a `Raise` result (a frozen descriptor
  string is the exception; see "Left out").
- **Config resolution** (`ConfigResolver`). `format_config` picks a
  descriptor: the String argument, else `:ooor_url`, else the `OOOR_URL`
  environment variable. The parsed fields are merged over the given hash, and
  the result is laid over a defaults hash built from constants and the
  `OOOR_*` variables.
- **Session registry** (`SessionRegistry`). `SessionHandler` is a class with
  `sessions` and `connections` tables and a ghost model of the web-session
  cache.
  - `RetrieveSession` reuses a registered session, merging the web session
    into it in place, or builds a new, unregistered one.
  - `RegisterSession` files a session under a key chosen by a three-way rule
    and writes the cache under the same key.
  - `Reset` empties both tables.
- **Extension registry** (`Extensions`). `Ooor.xtend` and `Ooor.extensions`
  form a class holding a map from model name to a list of blocks. The map is
  specified as a fold over the history of `xtend` calls.

What is proved, besides each operation's contract:
- `ooor://host…` without credentials always yields the user `admin`.
- `ooor://` followed by credentials parses the same as the credentials
  alone, provided they form one line, hold no `//`, and start with neither
  `http://` nor `ooor:`.
- `host:port`, where the host is made of host-name characters and is not
  `ooor`, parses back to that host and port.
- The emitted url always reads back as the parsed scheme, host and port.
- The scheme is `https` exactly under the SSL rule.
- Apart from a frozen descriptor string, the parser raises on exactly
  three kinds of input.
- Parsed fields override the given hash, and environment defaults only fill
  gaps.
- `OOOR_URL` is the last resort.
- The no-web key `"url-database-username"` determines its three parts when
  the url and database hold no dash. `SessionRegistry.NoWebSpecCollision`
  shows two configurations for different databases that share one key, and
  so one session.
- A no-web session registered without `:session_sharing`, then looked up
  with the same composite and without `:reload`, comes back as the same
  instance.
- `xtend` only appends: every name holds exactly the blocks of its calls, in
  call order.

Two behaviours of the code are easy to misread; the model follows the code:
- The `OOOR_PASSWORD`, `OOOR_USERNAME` and `OOOR_DATABASE` variables do not
  override the configuration. They sit in the defaults hash, under the
  configuration (`defaults.merge(config)`), so they only fill keys the
  configuration lacks. `ConfigResolver.DescriptorResult` states this.
- A host segment without `:` gets port 80 from `parse_host_port`. The later
  `port ||= 8069` never fires, because the port is always an Integer. So
  `user.mydb@host` is `http://host:80`, not port 8069.
  `ConnectionString.HostPortRule` and `ConnectionString.AtSplit` state this.

## Model

| member | source | states |
|---|---|---|
| `RubyText.Sub` | lib/ooor/session_handler.rb:109-115 | definition: `sub!` of a literal, replacing its first occurrence, at a line start when the pattern is anchored with `^` |
| `RubyText.RemoveAll` | lib/ooor/session_handler.rb:118-122 | definition: `gsub!` of a literal, removing every non-overlapping occurrence from left to right |
| `RubyText.Split` | lib/ooor/session_handler.rb:126-144 | definition: `String#split` on one character, with trailing empty fields dropped |
| `RubyText.ToI` | lib/ooor/session_handler.rb:171 | definition: `String#to_i`: leading whitespace, a sign, an optional `0d` prefix, then digits with single underscores; 0 when none |
| `RubyText.IntToS` | lib/ooor/session_handler.rb:160 | definition: `Integer#to_s` in decimal, with a `-` for negatives |
| `RubyText.Blank` | lib/ooor/session_handler.rb:158 | definition: ActiveSupport's `blank?` for nil or a String: nil, or only white space |
| `ConnectionString.ParseConnectionString` | lib/ooor/session_handler.rb:107-165 | definition: `parse_connection_string`, the descriptor parsed and emitted as a hash, or the error Ruby raises |
| `ConnectionString.ParseDescriptor` | lib/ooor/session_handler.rb:107-158 | definition: normalisation, then SSL stripping, then the body parse |
| `ConnectionString.Normalize` | lib/ooor/session_handler.rb:108-115 | definition: `ooor://` without `@` becomes `@`; then `^http://`, `^ooor:` twice and the first `//` go |
| `ConnectionString.StripSsl` | lib/ooor/session_handler.rb:116-123 | definition: the `ssl=true` and ` -s` markers removed and the flag set, raising on `gsub!` of nil |
| `ConnectionString.ParseBody` | lib/ooor/session_handler.rb:125-151 | definition: the `@` branch through `ParseCredentials`, else the whole text as host segment |
| `ConnectionString.ParseCredentials` | lib/ooor/session_handler.rb:127-148 | definition: database and host segment from the right part, credentials from the left part; raises when there is no host segment |
| `ConnectionString.Credentials` | lib/ooor/session_handler.rb:137-148 | definition: `user:password`, else `user.database` when no database was found, else the whole text as user |
| `ConnectionString.Finish` | lib/ooor/session_handler.rb:153-158 | definition: `localhost` for a nil host, SSL for port 443, `admin` for a blank username |
| `ConnectionString.Emit` | lib/ooor/session_handler.rb:159-164 | definition: the url and the non-nil fields as a hash |
| `ConnectionString.ParseHostPort` | lib/ooor/session_handler.rb:167-177 | definition: `parse_host_port` |
| `ConfigResolver.DescriptorSource` | lib/ooor/session_handler.rb:19-26 | definition: the String argument, else a truthy `:ooor_url`, else `OOOR_URL` |
| `ConfigResolver.Merged` | lib/ooor/session_handler.rb:19-27 | definition: the parsed fields merged over the given hash, or a new one for a String |
| `ConfigResolver.Defaults` | lib/ooor/session_handler.rb:29-35 | definition: the defaults hash from constants and `OOOR_*` variables |
| `SessionRegistry.NoWebSpec` | lib/ooor/session_handler.rb:9-11 | definition: `noweb_session_spec`, url, database and username joined by dashes |
| `SessionRegistry.Reusable` | lib/ooor/session_handler.rb:47-60 | definition: the condition under which `retrieve_session` returns the stored session |
| `SessionRegistry.RegistrationKey` | lib/ooor/session_handler.rb:65-71 | definition: the three-way key of `register_session` |
| `Extensions.Registry` | lib/ooor.rb:45-50 | definition: the registry a sequence of `xtend` calls builds |
| `RubyText.FieldsJoin` | lib/ooor/session_handler.rb:126 | `split` without dropping trailing fields: joining the fields with the separator gives back the string, and no field holds the separator |
| `RubyText.SplitFirstTwo` | lib/ooor/session_handler.rb:126-128 | `s.split(c)[0]` is the text before the first `c` (nil when the string is all separators) and `[1]` the text between the first two separators, nil when there is no separator or only separators follow the first |
| `RubyText.ToIOfIntToS` | lib/ooor/session_handler.rb:160 | `n.to_s.to_i == n` for every integer, so the port written into the url reads back |
| `ConnectionString.EmitShape` | lib/ooor/session_handler.rb:159-164 | the hash holds `url` and `username`, plus `database`/`password` exactly when found and then with the found values; every value is a String (nils are selected out) |
| `ConnectionString.UsernameNotBlank` | lib/ooor/session_handler.rb:158 | the username of a successful parse is never blank |
| `ConnectionString.OutputShape` | lib/ooor/session_handler.rb:107-165 | for every descriptor that parses, the hash has `url == scheme://host:port`, a non-blank `username`, and `database`/`password` exactly when found and with the found values, never nil |
| `ConnectionString.HostPortRule` | lib/ooor/session_handler.rb:167-177 | without `:` the host is the whole segment and the port 80; with one, the host is the text before the first `:` (nil for colons only) and the port `to_i` of the text up to the next `:` |
| `ConnectionString.HostPortHostNoColon` | lib/ooor/session_handler.rb:168-170 | the host `parse_host_port` returns holds no `:` |
| `ConnectionString.HostHasNoColon` | lib/ooor/session_handler.rb:107-153 | the parsed host never holds a `:` |
| `ConnectionString.UrlRoundTrip` | lib/ooor/session_handler.rb:160 | reading the url back (scheme before `:`, `//`, host up to `:`, `to_i` of the rest) gives the scheme, host and port it was built from |
| `ConnectionString.ParsedUrlRoundTrip` | lib/ooor/session_handler.rb:107-165 | for every descriptor that parses, the emitted url reads back as its scheme, host and port |
| `ConnectionString.SchemeRule` | lib/ooor/session_handler.rb:116-160 | the scheme is `https` exactly when `ssl=true` was present, ` -s` was present, or the port is 443 |
| `ConnectionString.ErrorCases` | lib/ooor/session_handler.rb:116-133 | parsing raises exactly when `ssl=true` has no `?ssl=true` (`gsub!` on nil), when nothing but `@`s follows the first `@`, or when the part after `@` has a `/` and nothing but slashes (`index` on nil) |
| `ConnectionString.AtSplit` | lib/ooor/session_handler.rb:125-148 | only the text before the first `@` and between the first two `@`s is read; `/` gives database and host segment; `:` gives user and password; `user.db` splits only when `/` gave no database; otherwise the whole left part is the user; the error conditions of this branch |
| `ConnectionString.NoAtSign` | lib/ooor/session_handler.rb:149-158 | without `@` the parse succeeds with user `admin`, no database and no password, the host segment's host (`localhost` when it has none, as for `:`) and its port |
| `ConnectionString.ColonAloneIsLocalhost` | lib/ooor/session_handler.rb:150-158 | a lone `:` parses to `localhost`, port 0 and user `admin` |
| `ConnectionString.BodyOfHostPort` | lib/ooor/session_handler.rb:149-157 | a `host:digits` body gives that host, `to_i` of the digits as port, `https` exactly for 443, user `admin` |
| `ConnectionString.OoorWithoutAtIsAt` | lib/ooor/session_handler.rb:108-110 | `ooor://` + text without `@` normalises exactly as `@` + text |
| `ConnectionString.NormalizeKeepsAtThenNoAt` | lib/ooor/session_handler.rb:108-115 | normalising `@` + text without `@` keeps the `@` first and adds no other |
| `ConnectionString.BodyOfAtThenNoAt` | lib/ooor/session_handler.rb:125-148 | a body `@` + text without `@` gives user `admin` and no password |
| `ConnectionString.OoorWithoutAtIsAdmin` | lib/ooor/session_handler.rb:108-158 | `ooor://` + anything without `@` always parses with user `admin` and no password |
| `ConnectionString.NormalizeUntouched` | lib/ooor/session_handler.rb:112-115 | a single line with no `//` that starts with neither `http://` nor `ooor:` is not changed by normalisation |
| `ConnectionString.NormalizeDropsOoorPrefix` | lib/ooor/session_handler.rb:108-115 | with an `@` and no newline in the rest, normalising `ooor://` + rest leaves exactly the rest (after a newline, `^http://` could match again) |
| `ConnectionString.OoorPrefixDropped` | lib/ooor/session_handler.rb:108-115 | `ooor://` + credentials parses exactly like the credentials alone (e.g. `ooor://admin@host/db` like `admin@host/db`) when the rest is one line with no `//` and no `http://`/`ooor:` prefix |
| `ConnectionString.PlainHostPortUntouched` | lib/ooor/session_handler.rb:108-123 | text of host-name characters and colons not starting with `ooor:` is left unchanged and unmarked by normalisation and SSL stripping |
| `ConnectionString.HostPortDescriptor` | lib/ooor/session_handler.rb:107-177 | `host:n` (host-name characters, not `ooor`) parses to host, port `n`, user `admin`, `https` exactly for 443, and its url reads back |
| `ConnectionString.HostPortConnectionString` | lib/ooor/session_handler.rb:107-165 | the hash of `host:n` is exactly `{url: scheme://host:n, username: admin}` |
| `ConfigResolver.ParseValue` | lib/ooor/session_handler.rb:22-27 | a String descriptor goes to the parser; any other truthy `:ooor_url` raises a missing-method error |
| `ConfigResolver.FormatConfig` | lib/ooor/session_handler.rb:14-37 | whenever it returns, the result has `url` and `username`; it raises exactly when the descriptor step raises |
| `ConfigResolver.DefaultsContents` | lib/ooor/session_handler.rb:29-35 | the defaults are the local url, `admin` or `OOOR_USERNAME`, and `password`/`database` exactly when `OOOR_PASSWORD`/`OOOR_DATABASE` are set |
| `ConfigResolver.ConfigOverDefaults` | lib/ooor/session_handler.rb:36 | the result's keys are the defaults' and the configuration's; configuration values win; defaults only fill missing keys |
| `ConfigResolver.ParsedOverwrites` | lib/ooor/session_handler.rb:27 | parsed fields overwrite the hash's keys; other keys of the hash keep their values |
| `ConfigResolver.DescriptorResult` | lib/ooor/session_handler.rb:19-36 | for a descriptor string, `url` and `username` come from the parser, `database`/`password` from the parser when found and from `OOOR_DATABASE`/`OOOR_PASSWORD` otherwise |
| `ConfigResolver.OoorUrlLastResort` | lib/ooor/session_handler.rb:19-26 | with a String argument or a truthy `:ooor_url`, the value of `OOOR_URL` makes no difference |
| `ConfigResolver.OoorUrlUsed` | lib/ooor/session_handler.rb:24-27 | with neither, `OOOR_URL` is parsed and supplies the url |
| `ConfigResolver.EmptyConfig` | lib/ooor/session_handler.rb:29-36 | `{}` with an empty environment gives exactly `{url: http://localhost:8069, username: admin}` |
| `ConfigResolver.FormatConfigRaises` | lib/ooor/session_handler.rb:19-27 | it raises exactly when the chosen descriptor is not a String or does not parse |
| `SessionRegistry.EffectiveId` | lib/ooor/session_handler.rb:40 | the id used is always truthy and is the given id whenever that is truthy |
| `SessionRegistry.LookupKey` | lib/ooor/session_handler.rb:41-45 | a non-`:noweb` id is its own key; `:noweb` gives the composite `NoWebSpec(config)` of url, database and username |
| `SessionRegistry.NoWebKeyIffSameTriple` | lib/ooor/session_handler.rb:41-42 | with dash-free urls and databases, two configurations get the same no-web key exactly when their url, database and username agree |
| `SessionRegistry.WithDefaults` | lib/ooor/session_handler.rb:50 | every configuration key keeps its value; with a default hash, the keys are the union and a key only the defaults hold keeps the default's value |
| `SessionRegistry.Session.constructor` | lib/ooor/session_handler.rb:51 | a new session records its configuration, web session and id |
| `SessionRegistry.SessionHandler.constructor` | lib/ooor/session_handler.rb:89-90 | both tables start empty |
| `SessionRegistry.SessionHandler.RetrieveSession` | lib/ooor/session_handler.rb:39-62 | tables and cache unchanged; returns the stored session with the web session merged in exactly when `reload` is falsy, a session is stored under the key, and its composite matches; otherwise a fresh session with the defaulted configuration, the given web session and the effective id; no other session changes |
| `SessionRegistry.SessionHandler.RegisterSession` | lib/ooor/session_handler.rb:64-74 | the cache and the table get the web session and the session under the same three-way key; every other entry and `connections` stay |
| `SessionRegistry.SessionHandler.Reset` | lib/ooor/session_handler.rb:76-79 | both tables are empty afterwards; the cache is not touched |
| `SessionRegistry.NoWebSpecParts` | lib/ooor/session_handler.rb:9-11 | with a dash-free url and database, the composite splits back on `-` into url, database and username |
| `SessionRegistry.NoWebSpecInjective` | lib/ooor/session_handler.rb:9-11 | with dash-free urls and databases, equal composites mean equal url, database and username |
| `SessionRegistry.NoWebSpecCollision` | lib/ooor/session_handler.rb:9-11 | configurations for databases `prod` and `prod-team` (users `team-admin` and `admin`) share one composite |
| `SessionRegistry.RegistrationMatchesLookup` | lib/ooor/session_handler.rb:41-71 | without sharing, the registration key of a truthy id is the lookup key for that id; with sharing it is the web session's `:session_id` |
| `SessionRegistry.RegisterThenRetrieveNoWeb` | lib/ooor/session_handler.rb:39-73 | after registering a no-web session whose configuration has no truthy `session_sharing`, a lookup with an equal composite and no `reload` finds it reusable and returns that instance |
| `Extensions.RegistryContents` | lib/ooor.rb:45-54 | a name is in the registry exactly when it was extended, and its list is the blocks of its calls in call order |
| `Extensions.RegistryGrows` | lib/ooor.rb:45-50 | later calls keep every earlier list as a prefix |
| `Extensions.ExtensionRegistry.constructor` | lib/ooor.rb:52-54 | a fresh module has an empty registry |
| `Extensions.ExtensionRegistry.Xtend` | lib/ooor.rb:45-50 | appends the block to the name's list (a one-element list for a new name), leaves every other list unchanged, returns the whole registry |
| `Extensions.ExtensionRegistry.Extensions` | lib/ooor.rb:52-54 | returns the registry: exactly the extended names, each with its blocks in call order |

## Left out

- `ConfigResolver.FormatConfig`: a `.yml` descriptor (lines 15-18) is excluded by a precondition. That branch and `load_config_file` (lines 95-105) read a YAML/ERB file and look up the Rails environment. `Ooor.load_config` (lib/ooor.rb:34-43) is left out for the same reason.
- `get_web_session`/`set_web_session` (lines 81-87) wrap the external `Ooor.cache`. The cache is a ghost map that `RegisterSession` writes.
- `SecureRandom.hex(16)` is the parameter `randomHex`. `Ooor.default_config` is the parameter `defaultConfig` (`Some` when it is a Hash). `ENV` is an input map.
- `Ooor::Session.new` is modelled only as a record of configuration, web session and id. lib/ooor/session.rb is not part of this model.
- `Ooor.new`, `ConnectionBehavior` and lib/ooor/railtie.rb are not part of this model. They are wiring into unseen code and Rails.
- Aliasing is not modelled:
  - the parser destructively rewrites the caller's `:ooor_url` string. In
    Ruby, `format_config`'s own result therefore holds the rewritten text
    under `:ooor_url` (`ooor://u@h` becomes `u@h`), while
    `ConfigResolver.ParsedOverwrites` and `ConfigResolver.ConfigOverDefaults`
    keep the original text;
  - `merge!` writes into the caller's hash;
  - a new session shares the caller's `web_session` hash;
  - sessions may share a web-session hash;
  - `extensions` hands out the registry hash itself.

  The model passes these as values.
- `format_config` with an argument that is neither a String nor a Hash, such as `nil`, is not modelled. Ruby raises on it.
- Keys are compared by name. `HashWithIndifferentAccess` and the difference between String and Symbol keys are not modelled.
- `xtend` model names are modelled as strings, and blocks as opaque values.
- Concurrent use of the shared tables is not modelled. The model is single-threaded.
- Strings are sequences of characters. Encodings are not modelled.
- Frozenness is not modelled. Ruby raises `FrozenError` when `sub!` runs on a
  frozen descriptor string (lines 109 and 112; line 112 always runs), which
  the `.dup()` at line 25 avoids for `OOOR_URL`. The model takes the
  descriptor as a value, so a frozen `:ooor_url` or String argument gives a
  parse result here, not an error.
