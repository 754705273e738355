# Meteor map placement and marker list

A model of the deterministic logic of the meteor impact page (`src/App.jsx`):

- **Placement** (`placement.dfy`, module `Placement`): `idToLatLng`, which
  hashes a near-Earth object's id string with the Java-style polynomial hash
  `h = (h * 31 + c) >>> 0` over its UTF-16 code units and splits the 32-bit
  hash into a latitude bucket `h % 15000` and a longitude bucket
  `floor(h / 15000) % 36000`. Each bucket is worth exactly 0.01 degree, so
  positions are modelled as whole centidegrees: latitude `bucket - 7500`,
  longitude `bucket - 18000`. The loop is an imperative method proved equal to
  the specification function `LatLngOf`. Lemmas about that function show
  the following:
  - the hash is the left fold of the step from 0;
  - the hash is the textbook polynomial `sum id[i] * 31^(n-1-i)` reduced
    modulo 2^32;
  - both coordinates, computed by the page's own formula in exact arithmetic,
    are whole centidegrees;
  - the range is exactly [-75, 74.99] x [-180, 179.99], and every position in
    it is reached;
  - two hashes share a position exactly when they agree modulo 540,000,000.
- **Markers** (`markers.dfy`, module `Markers`): the "hazardous only" filter
  over the fetched list, the `slice(0, 200)` cap on map markers, and the
  positions the map is fitted to. The filter is shown to keep exactly the
  hazardous meteors, with their repeats, in their original order. It is also
  shown to be the only order-preserving selection with that property. The
  markers are the first `min(200, n)` entries of the filtered list. The map is
  fitted to exactly the positions of the markers it draws.

The page's title and subtitle (`src/App.jsx:149-150`) announce an impact
simulator, but the code holds no simulation logic: `src/App.jsx:24`, `:30`,
`:71` and `:141` mark it as removed. The model follows the code and does not
invent a simulator.

The comment at `src/App.jsx:50` gives the ranges as closed,
"lat in [-75,75], lon in [-180,180]". The code yields half-open ranges whose
largest values are 74.99 and 179.99. `Placement.Place` states the exact bounds,
and `Placement.EveryPositionReached` shows they are tight.

## Model

| member | source | states |
|---|---|---|
| `Placement.Step` | src/App.jsx:48 | one turn of the hash loop leaves the hash in [0, 2^32) |
| `Placement.Hash` | src/App.jsx:46-49 | the hash of any id, after all its code units, is in [0, 2^32) |
| `Placement.IdToLatLng` | src/App.jsx:45-54 | the loop, whose invariant keeps the hash below 2^32 and equal to the hash of the prefix read so far, returns `LatLngOf(id)`, which is in range; the empty id maps to (-75, -180) |
| `Placement.HashIsLeftFold` | src/App.jsx:46-49 | the hash equals the left fold of h -> (h*31 + c) mod 2^32 over the id from 0, so equal ids always get equal positions |
| `Placement.HashIsPolynomial` | src/App.jsx:46-49 | reducing after every step gives the Java string hash sum id[i]*31^(n-1-i) modulo 2^32 |
| `Placement.LastUnitSeparates` | src/App.jsx:47-49 | two ids that differ only in their last code unit get different hashes |
| `Placement.Place` | src/App.jsx:50-52 | latitude bucket h % 15000 and longitude bucket floor(h/15000) % 36000 give a latitude in [-75, 74.99] and a longitude in [-180, 179.99] |
| `Placement.LatLngOf` | src/App.jsx:45-53 | every id is placed within the latitude and longitude range |
| `Placement.CellOf` | src/App.jsx:50-52 | an in-range position has a cell number below 540,000,000 |
| `Placement.CellOfPlace` | src/App.jsx:50-52 | the cell number of a hash's position is the hash modulo 540,000,000 |
| `Placement.PlaceOfCell` | src/App.jsx:50-52 | placing an in-range position's cell number gives back that position |
| `Placement.SamePlaceIff` | src/App.jsx:50-52 | two hashes share a map position if and only if they agree modulo 540,000,000 |
| `Placement.EveryPositionReached` | src/App.jsx:50-52 | every position of the range is the placement of some 32-bit hash, so the bounds are tight |
| `Placement.ExactHundredths` | src/App.jsx:51-53 | the page's formulas (bucket/15000)*150 - 75 and (bucket/36000)*360 - 180, in exact arithmetic, equal the model's centidegrees divided by 100 |
| `Placement.EmptyIdCorner` | src/App.jsx:46-53 | the empty id leaves the hash at 0 and maps to (-75, -180) |
| `Placement.ExampleId` | src/App.jsx:45-53 | the id "2000433" wraps around 2^32 to hash 2845520918 and is placed at (-15.82, -82.99) |
| `Markers.Hazardous` | src/App.jsx:143 | the filter keeps a meteor if and only if it is in the list and flagged hazardous, keeps each such meteor as often as it occurs, and keeps the list's order |
| `Markers.Filtered` | src/App.jsx:143 | with the box unticked the list is unchanged; ticked, it is the hazardous filter's output: exactly the hazardous meteors of the list, with their repeats, in order |
| `Markers.HazardousUnique` | src/App.jsx:143 | an order-preserving selection of hazardous meteors with as many entries as the filter's output is equal to it |
| `Markers.HazardousSelectionBound` | src/App.jsx:143 | no order-preserving selection of hazardous meteors is longer than the filter's output |
| `Markers.FilterCharacterised` | src/App.jsx:143 | any order-preserving selection that holds only hazardous meteors, and every hazardous meteor as often as it occurs, is the filter's output |
| `Markers.Capped` | src/App.jsx:208 | slice(0, 200) gives the first min(200, n) entries, in order |
| `Markers.ShortListUncapped` | src/App.jsx:208 | a list of at most 200 entries is drawn whole |
| `Markers.Positions` | src/App.jsx:61 | the coordinates of a list are its meteors' positions from their ids, in order, all in range |
| `Markers.MapMarkers` | src/App.jsx:208-212 | exactly min(200, n) markers for a filtered list of n meteors; marker i is entry i of the filtered list, drawn at the position of its id |
| `Markers.MarkersInOrder` | src/App.jsx:208 | the markers stand for meteors of the fetched list in its order; with the box ticked all are hazardous |
| `Markers.MarkersComplete` | src/App.jsx:208 | when the filtered list has at most 200 entries, every meteor it keeps gets a marker |
| `Markers.BoundsPositions` | src/App.jsx:59-62 | no bounds when the filtered list is empty; otherwise exactly min(200, n) in-range positions, position i being that of the id of filtered entry i |
| `Markers.BoundsMatchMarkers` | src/App.jsx:59-62 | the positions the map is fitted to are exactly the positions of the markers drawn |

## Left out

- Impact simulation: the code has none of it (`src/App.jsx:24`, `:30`, `:71`, `:141`).
- `fetchForRange` (`src/App.jsx:73-139`): network fetches, JSON parsing, the fallback to the public NASA feed when the proxy answers with HTML, error messages and React state updates are I/O.
- The date checks at `src/App.jsx:75-82`: they depend on JavaScript `Date` parsing, which is not part of this model.
- `buildApiUrl` (`src/App.jsx:20-22`): URL encoding is string plumbing with nothing to prove.
- `api/nasa/meteors.js` is not part of this model: it is a proxy that forwards query parameters and headers to the NASA feed and passes the JSON back.
- Floating point: `Placement.IdToLatLng` and `Placement.Place` work in exact integer centidegrees. They do not model the double-precision division, the `toFixed(6)` rounding or the `Number` parse. In double precision the hash arithmetic below 2^37 and `floor(h / 15000)` are exact. The error in the scaled coordinate is far below 5e-7, so the rounded result is the exact hundredth. A coordinate is zero only for latitude bucket 7500 or longitude bucket 18000, where the double computation gives exactly +0; every other bucket is at least 0.01 away from 0, so -0 cannot arise.
- Ids are modelled as sequences of UTF-16 code units, what `charCodeAt` reads. The model does not handle an id that arrives as a non-string.
- The hazard flag is a boolean. JavaScript truthiness of other values is not modelled.
- React scheduling: the effect at `src/App.jsx:56-69` runs only when a map instance exists, and then calls `fitBounds` inside a `try`. The model gives the positions handed to `fitBounds` (`Markers.BoundsPositions`). It does not model the call, its zoom options or the ignored exception.
- The conditions at `src/App.jsx:192` and `:231` that hide the map and the list while loading, on error or when nothing was fetched are presentation state. So is the rendering of the full filtered list at `src/App.jsx:234-275`: the average diameter with `toFixed(3)`, the velocity with `toLocaleString`, popups and cards.
- Leaflet icon setup (`src/App.jsx:14-18`) is a foreign library.
