# CheeseListing entity, modelled in Dafny

This project models the `CheeseListing` entity of a small API Platform
application: a marketplace listing with a title, a description, a price, a
publish flag, a creation time and an id assigned by the store. The entity is
a plain mutable object. Its fluent setters overwrite one field each and
return the object itself. Its getters read the fields. Two pieces of it have
behaviour of their own:

- `getShortDescription` cuts a description of 40 bytes or more down to its
  first 40 bytes followed by `"..."`.
- `setTextDescription` stores PHP's `nl2br` of raw text. This puts
  `"<br />"` before every line break. A line break is `"\r\n"`, `"\n\r"`, a
  lone `"\r"` or a lone `"\n"`.

Modules:

- `Bytes` (`bytes.dfy`): PHP strings as byte sequences (`seq<byte>`), because
  `strlen` and `substr` count bytes, not characters. PHP's 64-bit `int` is
  `int64`.
- `Wrappers` (`wrappers.dfy`): `Option`, used for PHP's nullable fields.
- `Nl2br` (`nl2br.dfy`): PHP's built-in `nl2br` with its default XHTML marker,
  as a pure function `Nl2Br`. It follows PHP's C implementation: each break
  gets `"<br />"` and is then copied through, and `"\r\n"` and `"\n\r"` are
  each one break. `BreakCount` is the count PHP takes first to size the
  result. `StripMarkers` is the inverse: it deletes every `"<br />"` that is
  immediately followed by `"\r"` or `"\n"`.
- `Entity` (`cheese_listing.dfy`): the class `CheeseListing`, with the same
  six fields as the PHP class and a `modifies this` method per setter. Each
  setter's contract gives the whole new state through `State()`, so "only
  this field changes" is stated outright. The getters (`GetId`, `GetTitle`,
  `GetDescription`, `GetPrice`, `GetCreatedAt`, `GetIsPublished`) are
  functions that read one field each. The contracts of the constructor and
  the setters say what each getter then returns. `Truncate` is the pure core
  of `getShortDescription`. `Scenario` is a client method that drives a
  listing through the fluent setters.

The clock is a parameter: the constructor takes the current time as an
`Instant`, which nothing in the entity inspects. PHP's
`new \DateTimeImmutable()` reads it from the system.

Three facts about the code shape the model:

- `setDescription` stores its argument verbatim. Only `setTextDescription`
  converts line breaks, so a stored description need not be in converted
  form.
- `strlen` and `substr` count bytes, so the limit of 40 is a byte count.
- The entity itself validates nothing, the title's length included, so no
  validation is modelled.

## Model

| member | source | states |
|---|---|---|
| `Entity.CheeseListing.constructor` | src/Entity/CheeseListing.php:63-73 | the title is the argument and `createdAt` is the supplied time; `isPublished` is false; id, description and price are null; the short description is null |
| `Entity.CheeseListing.GetId` | src/Entity/CheeseListing.php:75-78 | returns the stored id, the `id` component of the state |
| `Entity.CheeseListing.GetTitle` | src/Entity/CheeseListing.php:80-83 | returns the stored title, the `title` component of the state |
| `Entity.CheeseListing.GetDescription` | src/Entity/CheeseListing.php:92-95 | returns the stored description, the `description` component of the state |
| `Entity.CheeseListing.GetPrice` | src/Entity/CheeseListing.php:124-127 | returns the stored price, the `price` component of the state |
| `Entity.CheeseListing.GetCreatedAt` | src/Entity/CheeseListing.php:136-139 | returns the creation time, the `createdAt` component of the state |
| `Entity.CheeseListing.GetIsPublished` | src/Entity/CheeseListing.php:148-151 | returns the publish flag, the `isPublished` component of the state |
| `Entity.CheeseListing.SetTitle` | src/Entity/CheeseListing.php:85-90 | returns the same object; only `title` changes, to the argument, which `GetTitle` then returns |
| `Entity.CheeseListing.SetDescription` | src/Entity/CheeseListing.php:97-102 | returns the same object; only `description` changes, to the argument verbatim, which `GetDescription` then returns |
| `Entity.CheeseListing.SetTextDescription` | src/Entity/CheeseListing.php:117-122 | returns the same object; only `description` changes, to `Nl2Br` of the argument; the stored value equals the argument exactly when the argument has no CR or LF; deleting the markers from it recovers the argument |
| `Entity.CheeseListing.SetPrice` | src/Entity/CheeseListing.php:129-134 | returns the same object; only `price` changes, to the argument, which `GetPrice` then returns |
| `Entity.CheeseListing.SetIsPublished` | src/Entity/CheeseListing.php:153-158 | returns the same object; only `isPublished` changes, to the argument, which `GetIsPublished` then returns |
| `Entity.CheeseListing.GetShortDescription` | src/Entity/CheeseListing.php:105-112 | null for a null description; the description itself below 40 bytes; its first 40 bytes followed by "..." from 40 bytes on |
| `Entity.LastDescriptionWins` | src/Entity/CheeseListing.php:97-122 | both description setters overwrite the same field: after `setTextDescription` and then `setDescription`, the verbatim value is stored and nothing else has changed |
| `Entity.LastTextDescriptionWins` | src/Entity/CheeseListing.php:97-122 | in the other order, `setDescription` and then `setTextDescription`, the converted text replaces the verbatim value and nothing else has changed |
| `Entity.Truncate` | src/Entity/CheeseListing.php:105-112 | for every description, the result is at most 43 bytes long, at least min(length, 40) bytes long, and its first min(length, 40) bytes are those of the description |
| `Entity.TruncateShort` | src/Entity/CheeseListing.php:107-109 | a description shorter than 40 bytes is returned unchanged |
| `Entity.TruncateLong` | src/Entity/CheeseListing.php:111 | a description of 40 bytes or more gives exactly its first 40 bytes followed by "...", 43 bytes in all |
| `Entity.TruncateBoundary` | src/Entity/CheeseListing.php:107-111 | a description of exactly 40 bytes gets "..." appended although nothing is cut off, so the result differs from it |
| `Entity.TruncateFixedPoint` | src/Entity/CheeseListing.php:105-112 | the short description equals the description if and only if the description is under 40 bytes, or is 43 bytes long and ends in "..." |
| `Entity.TruncateIdempotent` | src/Entity/CheeseListing.php:105-112 | shortening an already short description changes nothing |
| `Nl2br.Nl2BrLength` | src/Entity/CheeseListing.php:119 | the converted text is the input's length plus six bytes per line break, with a CR LF or LF CR pair counting as one break |
| `Nl2br.BreakCountZero` | src/Entity/CheeseListing.php:119 | the text has no line break if and only if it has no CR or LF byte |
| `Nl2br.NoBreakUnchanged` | src/Entity/CheeseListing.php:119 | text with no CR or LF is left unchanged |
| `Nl2br.Nl2BrFixedPoint` | src/Entity/CheeseListing.php:119 | the conversion leaves the text unchanged if and only if it has no CR or LF |
| `Nl2br.NoEarlyBreak` | src/Entity/CheeseListing.php:119 | no CR or LF lies in the first six bytes of converted text |
| `Nl2br.StripNl2Br` | src/Entity/CheeseListing.php:119 | deleting each "<br />" that is directly followed by CR or LF from the converted text recovers the input exactly |
| `Nl2br.StripNoBreak` | src/Entity/CheeseListing.php:119 | deleting markers changes nothing in text with no CR or LF |
| `Nl2br.Nl2BrNotIdempotent` | src/Entity/CheeseListing.php:119 | converting text that holds a line break a second time changes it again, so applying `setTextDescription` to stored text adds more markers |
| `Nl2br.Nl2BrAppend` | src/Entity/CheeseListing.php:119 | converting two pieces separately and joining them gives the same as converting the joined text, if the second piece does not start with CR or LF |

## Left out

- The API Platform and Doctrine attributes: operations, filters,
  serialization groups, pagination of 10, formats and column mapping. They are
  metadata that framework code interprets, and the entity is unaffected by them.
- `getCreatedAtAgo`: it formats the age of `createdAt` with the Carbon library
  against the wall clock. `createdAt` is a value that nothing inspects, set once by the
  constructor.
- Assigning `id`: Doctrine does this by reflection when the entity is
  persisted. The model starts `id` as null, as PHP does, and nothing in the
  model assigns it.
- `nl2br`'s second argument: the entity always uses the default, the XHTML
  marker `"<br />"`, so the HTML `"<br>"` form is not modelled.
- PHP's type juggling at the setters' boundaries: the model's arguments are
  already a byte string, an `int64` or a `bool`.
- The login controller (`src/Controller/TokenController.php`) and the
  password-hashing listener (`src/EventListener/UserListener.php`). They only
  call a repository lookup, a password encoder, a JWT encoder, `time()` and a
  password hasher, all of which are outside this code. The `User` entity is
  not part of this model.
