# Arc-flow graph reader and relabelling

This project models two operations from VPSolver's Python graph utilities,
`pyvpsolver/graphutils/afgutils.py`:

- `AFGUtils.read_graph` reads an arc-flow graph from an `.afg` file. The file
  has an `IDS:` table of external item ids. It also has a graph block between
  `#GRAPH_BEGIN#` and `#GRAPH_END#` that holds a header and then the arcs.
  - The header is `NBTYPES:`, `S:`, `Ts:` (`NBTYPES` targets, none when
    `NBTYPES` is not positive), `LOSS:`, `NV:` and `NA:`.
  - Each arc is a `u v label` triple of integers.
  - An arc whose raw label equals `LOSS` is a loss arc. Any other raw label
    is an index into the ID table. When a `labels` table is given, the id
    found there is looked up in that table.
  - The reader returns the sorted vertex list, the arcs, `S`, `Ts` and `LOSS`.
- `AFGUtils.relabel` maps a graph through a vertex map `fv` and an arc-label
  map `fa`. It drops the arcs whose two endpoints `fv` identifies, and
  removes duplicates.

## Modules

- `wrappers.dfy` (`Wrappers`): `Option` and `Result`.
- `pyint.dfy` (`PyInt`): Python's `str.isdigit` and `int(str)` on tokens,
  plus a decimal rendering that `int` inverts.
- `cursor.dfy` (`Cursor`): reading keywords and integers at a position of a
  token list. This replaces the source's `lst.pop(0)`. The module also holds
  `ParseError`, which lists every way a read stops.
- `seqs.dfy` (`Seqs`): the element set of a list, Python's `set(lst)`.
- `sorted.dfy` (`SortedInts`): strictly ascending integer lists, which is
  the shape of `sorted(set(...))`.
- `afg_reader.dfy` (`AfgReader`): `read_graph`, split into its stages:
  - the ID table
  - the header
  - the arcs, with labels resolved
  - the vertex list

  Each stage has a declarative description: `IdTableAt`, `HeaderAt`,
  `ArcsAt` and `GraphOf`. An if-and-only-if lemma ties each stage to its
  description.
- `relabel.dfy` (`Relabel`): `relabel`, as a fold over the input lists. Its
  results are proved equal to set-comprehension characterisations.

The reader takes two token lists:

- the whitespace-split tokens of the whole file, where `IDS:` is searched for;
- the tokens of the graph block, taken from between the two markers.

A failure of the source (`AssertionError`, `IndexError`, `ValueError` or
`KeyError`) is a `Failure(e)` value here. The `ParseError` `e` says which case
occurred.

### Behaviour of the code worth noting

- `Ts` holds `max(0, NBTYPES)` entries, because `range` of a negative
  number is empty, although the field name suggests one entry per type.
- `NV` and `NA` must be integers, but they are never compared with the
  vertices and arcs that are actually read (`AfgReader.CountsIgnored`).
- A negative raw label that is not `LOSS` indexes the ID table from the
  end, as Python list indexing does (`AfgReader.PyIndex`). It is not an
  error.
- All tokens after the header are converted with `int` first, and only
  then read as triples. So a bad token anywhere fails the whole read, even
  before a short trailing triple would.

## Model

| member | source | states |
|---|---|---|
| PyInt.ParseIntShowInt | pyvpsolver/graphutils/afgutils.py:54 | `int` reads back the decimal rendering of every integer, negative ones included |
| PyInt.ParseIntDigitToken | pyvpsolver/graphutils/afgutils.py:44-45 | a token made of ASCII digits, the only digit tokens modelled, always converts with `int`, to the value of its digits |
| PyInt.ParseInt | pyvpsolver/graphutils/afgutils.py:54 | a token `int` accepts is non-empty and starts with a sign or a digit; an unsigned token gives a non-negative value and a `-` token gives a non-positive one |
| Cursor.ExpectKeyword | pyvpsolver/graphutils/afgutils.py:52-53 | the keyword check passes exactly when the next token exists and is the keyword, and then moves one token on |
| Cursor.ExpectInt | pyvpsolver/graphutils/afgutils.py:54 | reading one integer succeeds exactly when the next token exists and converts, and gives that token's value |
| Cursor.ExpectInts | pyvpsolver/graphutils/afgutils.py:62-64 | reading `n` integers gives `max(0, n)` values, which are the conversions of the next tokens in order; it succeeds whenever those tokens exist and all convert |
| AfgReader.FirstIndex | pyvpsolver/graphutils/afgutils.py:42 | `lst.index("IDS:")` fails exactly when `IDS:` is absent, and otherwise finds its first occurrence |
| AfgReader.DigitRunEnd | pyvpsolver/graphutils/afgutils.py:44 | the digit-token run ends at the first token that is not all digits; when every remaining token is a digit token, `lst[0]` runs off the end and the read fails |
| AfgReader.ReadIds | pyvpsolver/graphutils/afgutils.py:42-45 | the ID table is the digit run right after the first `IDS:`; every id is non-negative; the read fails only when `IDS:` is missing or the run reaches the end of the file |
| AfgReader.ReadIdsSpec | pyvpsolver/graphutils/afgutils.py:42-45 | the reader returns `ids` exactly when `ids` is the digit run after the first `IDS:` and a non-digit token follows it |
| AfgReader.ParseLead | pyvpsolver/graphutils/afgutils.py:52-64 | an accepted `NBTYPES`, `S`, `Ts` run has its keywords and integers at their fixed positions, with `max(0, NBTYPES)` targets |
| AfgReader.ParseTrail | pyvpsolver/graphutils/afgutils.py:66-76 | an accepted `LOSS`, `NV`, `NA` run has its keywords and integers at their positions after the targets |
| AfgReader.ParseHeader | pyvpsolver/graphutils/afgutils.py:52-76 | an accepted header has its six keywords and its integers at their fixed positions |
| AfgReader.ParseHeaderSpec | pyvpsolver/graphutils/afgutils.py:52-76 | the header is read as `h` exactly when the block has `h`'s keywords and integers at their fixed positions, with `max(0, NBTYPES)` targets; anything out of place fails |
| AfgReader.ParseHeaderComplete | pyvpsolver/graphutils/afgutils.py:52-76 | a block laid out as header `h` is read as `h` |
| AfgReader.PyIndex | pyvpsolver/graphutils/afgutils.py:88 | `ids[i]` is defined exactly for `-len(ids) <= i < len(ids)`; a negative index counts from the end |
| AfgReader.Resolve | pyvpsolver/graphutils/afgutils.py:85-90 | the loss test comes first, so a raw label equal to `LOSS` is a loss arc even when it would also be a valid index; otherwise the label resolves exactly when the index is in range and, when a table is given, the id is in the table, and it is the id or the table's entry for it |
| AfgReader.ParseArcs | pyvpsolver/graphutils/afgutils.py:79-90 | the arcs read are one per triple, in order, with endpoints copied and labels resolved; the read succeeds whenever the integers come in whole triples and every label resolves |
| AfgReader.ParseArcsComplete | pyvpsolver/graphutils/afgutils.py:79-90 | whatever arc list the triples describe is the one returned |
| AfgReader.SortedVertices | pyvpsolver/graphutils/afgutils.py:80-84 | `sorted(V)` is strictly ascending, holds no duplicates, and holds exactly the endpoints of the arcs |
| AfgReader.ArcTokensConvert | pyvpsolver/graphutils/afgutils.py:78 | when the tokens after the header describe arcs, every one of them converts with `int` |
| AfgReader.ArcsOfIntsAt | pyvpsolver/graphutils/afgutils.py:78-90 | arcs described by the converted integers are described by the tokens themselves |
| AfgReader.ArcsAtInts | pyvpsolver/graphutils/afgutils.py:78-90 | arcs described by the tokens are described by their converted integers |
| AfgReader.ReadArcs | pyvpsolver/graphutils/afgutils.py:78-90 | arcs that are read are the tokens after the header taken three at a time, each endpoint the token's `int` value and each label the resolution of the third token |
| AfgReader.ReadBody | pyvpsolver/graphutils/afgutils.py:78-92 | the graph built after the header has a strictly ascending vertex list made of exactly the arc endpoints, three tokens per arc, and the header's targets |
| AfgReader.ReadArcsSpec | pyvpsolver/graphutils/afgutils.py:78-90 | the arc stage returns `arcs` exactly when the tokens after the header are `arcs`' triples, three tokens per arc, with every label resolving |
| AfgReader.ReadGraph | pyvpsolver/graphutils/afgutils.py:36-92 | a graph that is read has a strictly ascending vertex list made of exactly the arc endpoints, and the block is consumed exactly: 11 header tokens, the targets and three tokens per arc |
| AfgReader.ReadGraphSound | pyvpsolver/graphutils/afgutils.py:36-92 | whatever the reader returns is the graph the file describes |
| AfgReader.ReadGraphComplete | pyvpsolver/graphutils/afgutils.py:36-92 | the graph the file describes is what the reader returns |
| AfgReader.ReadGraphSpec | pyvpsolver/graphutils/afgutils.py:36-92 | `read_graph` returns `g` exactly when `g` is the graph the file describes: its ID table, header fields, arcs and sorted endpoint list |
| AfgReader.CountsIgnored | pyvpsolver/graphutils/afgutils.py:70-76 | other integer values for `NV` and `NA` leave the result unchanged, success or failure |
| AfgReader.CountsReplaced | pyvpsolver/graphutils/afgutils.py:70-76 | replacing the `NV` and `NA` values gives the same header with those two counts replaced, and leaves the tokens after the header, which hold the arcs, untouched |
| AfgReader.HeaderCountsAt | pyvpsolver/graphutils/afgutils.py:70-76 | the header layout holds whatever integers stand in the `NV` and `NA` slots |
| AfgReader.ReadExample | pyvpsolver/graphutils/afgutils.py:36-92 | a concrete file with ID table `5 6 7`: raw label 0 becomes id 5, raw label 9 equals `LOSS` and becomes a loss arc, and `NV: 4` is accepted although three vertices are found |
| SortedInts.Insert | pyvpsolver/graphutils/afgutils.py:83-84 | adding a vertex to the ascending set keeps it ascending and adds exactly that vertex |
| SortedInts.SortedUnique | pyvpsolver/graphutils/afgutils.py:91 | a set of integers has exactly one strictly ascending listing |
| Relabel.RelabelVertices | pyvpsolver/graphutils/afgutils.py:97 | the new vertex set is the image of the vertex list under `fv` |
| Relabel.RelabelArcs | pyvpsolver/graphutils/afgutils.py:98 | the new arc set has no self-loops, holds the image of every arc whose endpoints `fv` keeps apart, and holds nothing else |
| Relabel.Relabel | pyvpsolver/graphutils/afgutils.py:95-99 | the relabelled graph's vertices are the image of the old ones, and it has no self-loops |
| Relabel.RelabelArcsMembers | pyvpsolver/graphutils/afgutils.py:98 | an arc is in the result exactly when it is the image of some input arc that does not collapse |
| Relabel.RelabelIdentity | pyvpsolver/graphutils/afgutils.py:95-99 | identity maps turn the lists into their element sets and drop exactly the self-loops |
| Relabel.RelabelIdentityLoopFree | pyvpsolver/graphutils/afgutils.py:95-99 | identity maps on a loop-free graph only turn the lists into sets |
| Relabel.RelabelOrderInsensitive | pyvpsolver/graphutils/afgutils.py:95-99 | the result depends only on the sets of input vertices and arcs, not on their order or repetitions |
| Relabel.RelabelArcsCompose | pyvpsolver/graphutils/afgutils.py:95-99 | relabelling twice gives the same arcs as relabelling once with the composed maps |

## Left out

- File reading (lines 38-39) and `str.split` are left out. The reader is given the file's tokens directly.
- Slicing out the graph block between `#GRAPH_BEGIN#` and `#GRAPH_END#\n` (lines 47-50) is left out. The reader is given the block's tokens as a second input.
- `AFGUtils.draw` (lines 101-157) depends on pygraphviz and the file system, and is not part of this model.
- The `Colors` helper (lines 160-205) only serves drawing, and is not part of this model.
- PyInt.ParseInt: digits are ASCII `0`-`9` only. Python 3's `int` also accepts other Unicode decimal digits, Arabic-Indic ones for example. Surrounding whitespace, which `int` would also accept, cannot occur in a whitespace-split token.
- PyInt.ParseInt: accepts digit strings of any length. Python 3.11 and later, and the 3.7.14, 3.8.14, 3.9.14 and 3.10.7 security releases, reject decimal strings longer than 4300 digits by default (the limit is set by `sys.set_int_max_str_digits` or `PYTHONINTMAXSTRDIGITS`), so on such a token lines 45, 54-76 or 78 raise `ValueError` where the model reads the value. The model has no limit.
- PyInt.ParseInt: a single `_` between digits is accepted, as `int` does from Python 3.6 on. Under Python 2, which the file's `builtins` imports also support, `int("1_0")` raises `ValueError`.
- PyInt.ParseIntDigitToken: Python's `str.isdigit` also accepts characters such as the superscript `²`, which `int` rejects. On such a token the ID loop (lines 44-45) raises `ValueError`. The model counts only ASCII digits as digits, so it has no such token.
- Running Python with `-O` strips the keyword `assert`s (lines 52-74), so the popped keyword tokens would not be checked. The model keeps the checks.
- `labels` is modelled as a map from ids to labels. The source accepts any indexable object, a list for example.
- AfgReader.Resolve: in Python, the loss label and an id are both plain integers. The model tags them (`Loss` or `Id`) so that a reader of the result can tell which case occurred. Forgetting the tag gives the source's value.
- Relabel.Relabel: returns sets. The source returns `list(V)` and `list(A)`, whose order depends on Python's set iteration and is not modelled.
- Relabel.Relabel: `fv` and `fa` are total Dafny functions. In Python they may raise, and the exception propagates out of `relabel`.
- Relabel.Relabel: the default `fa=lambda x: x` is not a separate entry point. Callers pass the identity map, as `RelabelIdentity` does.
