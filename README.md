# Academic World dashboard — verified model of its core

The Academic World dashboard is a Streamlit page over three stores of faculty, publication
and keyword data. This project models the parts of it that compute or change data,
leaving out the rendering:

- **Research network graph** (`network.dfy`, module `Network`). The page builds a node list
  and an edge list from a selected keyword and the rows of the co-keyword query.
  - One `seen` set is shared by faculty names and co-keywords.
  - A faculty name not yet in `seen` gets a node and an edge to the keyword. A name already seen, as faculty or as co-keyword, gets neither.
  - A co-keyword not yet in `seen` gets a node. Every co-keyword gets an edge from its faculty member.
  - `BuildNetwork` is that loop. It is proved against the fold `Run`: `Start`, then `AddEntry` per row.
- **Favorites collection** (`favorites.dfy`, module `Favorites`). The favorites store is a
  class whose `records` sequence stands for the collection in natural order. Its methods are:
  - check-then-insert save;
  - the per-user listing;
  - the per-user wipe (`delete_many`);
  - the removal of the first matching document (`delete_one`).
- **Catalogue readers** (`catalog.dfy`, module `Catalog`). These are filter, sort and limit
  functions over the faculty and publications collections:
  - the sorted distinct universities;
  - faculty by university;
  - the sorted faculty names;
  - the first faculty document by name and by id;
  - the most-cited publications among a list of ids.
- **Session logic** (`session.dfy`, module `Session`):
  - the login form, which creates the session user and then wipes that user's favorites;
  - the removal of one research interest from the user's list.
- **Supporting modules**:
  - `Wrappers.Option`, the document-or-nothing result;
  - `Seqs.IsSubsequence`, for "same order, some dropped";
  - `StringOrder`, the code-point order of Python's `sorted` on strings, with the insertion sorts built on it.

Three facts about the code shape the favorites model:
- favorites live in their own collection of `(user, faculty_id, timestamp)` documents, keyed by the user's email;
- a save looks up no faculty document: it stores only the id it is given;
- every successful login clears that user's favorites (app.py:45).

## Model

| member | source | states |
|---|---|---|
| Network.BuildNetwork | app.py:175-194 | The loop's final nodes and edges are those of the fold `Run`, and its `seen` set is every faculty name and co-keyword. The root node comes first and has the keyword as id. The ids after the root are pairwise distinct. The node ids are exactly the keyword plus all names. Every edge's endpoints are node ids. The edge count is the number of rows with a new faculty name plus the total number of co-keywords. |
| Network.RunWellFormed | app.py:175-194 | After any number of rows: the root is first, the ids after it are distinct and equal the `seen` set, and every edge starts at a seen name and ends at the keyword or a seen name. |
| Network.AddFacultyWellFormed | app.py:185-188 | The faculty step keeps the graph well formed. |
| Network.AddCoKeywordWellFormed | app.py:190-194 | Once the row's faculty member has been seen, one co-keyword step keeps the graph well formed. |
| Network.AddCoKeywordsWellFormed | app.py:190-194 | The inner loop keeps the graph well formed and adds exactly the row's co-keywords to `seen`. |
| Network.RunSeen | app.py:175-194 | `seen` after the rows is exactly their faculty names and co-keywords. The keyword itself is never added. |
| Network.AddCoKeywordsEdges | app.py:190-194 | The inner loop appends one edge from the faculty member to each co-keyword, in order, whether or not the co-keyword was already seen. |
| Network.RowEdges | app.py:181-194 | A row appends the faculty-to-keyword edge exactly when its faculty name is new, then one edge per co-keyword. |
| Network.RunEdgeCount | app.py:175-194 | The number of edges is the number of rows with a new faculty name plus the total number of co-keywords. |
| Network.RunEdgesGrow | app.py:175-194 | The edges after a prefix of the rows are a prefix of the final edges. |
| Network.PairHasEdge | app.py:190-194 | Every pair of a row's faculty member and one of its co-keywords is an edge of the final graph. |
| Network.FacultyEdgeAtMostOnce | app.py:185-188 | A faculty name repeated in a later row is not new, so the faculty step emits no second faculty-to-keyword edge for it. A co-keyword equal to the keyword can still add the same edge value through the inner loop. |
| Network.NoFacultyEdgeAfterCoKeyword | app.py:185-188 | A faculty name that an earlier row listed as a co-keyword is not new, because both kinds share `seen`, so the faculty step emits no faculty-to-keyword edge for it. |
| Network.RootIdRepeated | app.py:179-194 | When the keyword also occurs as a faculty name or co-keyword, a second node with the keyword's id is emitted after the root: the keyword is never put into `seen`. |
| Favorites.FindOne | mongodb_utils.py:31 | `find_one` with the pair filter gives the position of the first matching document, or nothing exactly when no document matches. |
| Favorites.Saved | mongodb_utils.py:30-36 | Saving appends one document `(user, facultyId, now)` exactly when none matches. Otherwise the collection is unchanged. Afterwards a match exists. |
| Favorites.SaveExactlyOne | mongodb_utils.py:30-36 | If the pair had at most one document before, it has exactly one after a save. |
| Favorites.SaveIdempotent | mongodb_utils.py:30-36 | A second save of the same pair, whatever its time, changes nothing. |
| Favorites.SavePreservesUnique | mongodb_utils.py:30-36 | Saving keeps every (user, faculty id) pair to at most one document. |
| Favorites.UserFavorites | mongodb_utils.py:38-39 | The listing holds exactly the user's documents, each as often as in the collection, in collection order. |
| Favorites.Cleared | mongodb_utils.py:44-45 | Clearing keeps exactly the documents of other users, each as often as before, in collection order. |
| Favorites.ClearedFavorites | mongodb_utils.py:44-45 | After clearing, the user has no favorites and every other user's listing is identical. |
| Favorites.ClearPreservesUnique | mongodb_utils.py:44-45 | Clearing keeps pairs unique. |
| Favorites.RemovedOne | mongodb_utils.py:47-48 | Removal is a no-op when nothing matches. Otherwise exactly one document goes. The rest keep their order, and every non-matching document keeps its count. |
| Favorites.RemoveCount | mongodb_utils.py:47-48 | Removal lowers the pair's document count by one, or leaves it at zero. |
| Favorites.RemovePreservesUnique | mongodb_utils.py:47-48 | On a collection with unique pairs, removal keeps pairs unique and leaves no document for the removed pair. |
| Favorites.FavoritesStore.SaveToFavorites | mongodb_utils.py:30-36 | The collection becomes `Saved(old, user, facultyId, now)`, and uniqueness of pairs is preserved. |
| Favorites.FavoritesStore.GetFavorites | mongodb_utils.py:38-39 | Returns exactly the user's documents, each as often as stored, in collection order, without changing the store. |
| Favorites.FavoritesStore.ClearFavorites | mongodb_utils.py:44-45 | The collection becomes `Cleared(old, user)`. The user then has no favorites, and uniqueness is preserved. |
| Favorites.FavoritesStore.RemoveFromFavorites | mongodb_utils.py:47-48 | The collection becomes `RemovedOne(old, user, facultyId)`. Under unique pairs, no document for the pair remains. |
| Catalog.AllUniversities | mongodb_utils.py:8-9 | Ascending code-point order without duplicates. Contains exactly the affiliations some faculty document has. |
| Catalog.FacultyByUniversity | mongodb_utils.py:11-12 | Exactly the faculty documents with that affiliation, each as often as in the collection, in collection order. |
| Catalog.AllFacultyNames | mongodb_utils.py:14-15 | Sorted. One entry per faculty document, duplicates kept: the same multiset as the document names. |
| Catalog.FindOne | mongodb_utils.py:17-18 | The first document satisfying an equality filter, or nothing exactly when none satisfies it. |
| Catalog.FacultyByName | mongodb_utils.py:17-18 | Nothing exactly when no document has the name. Otherwise the first document with that name. |
| Catalog.FacultyById | mongodb_utils.py:41-42 | Nothing exactly when no document has the id. Otherwise the first document with that id. |
| Catalog.Selected | mongodb_utils.py:21 | The `$in` filter keeps exactly the publications whose id is listed, with their multiplicities, in collection order. |
| Catalog.SortByCitations | mongodb_utils.py:21 | Non-increasing citation counts, and a permutation of its input. |
| Catalog.LimitCount | mongodb_utils.py:21 | `limit(0)` lets everything through. Any other limit lets through at most its absolute value, or everything when there is less. |
| Catalog.PublicationsByIds | mongodb_utils.py:20-21 | The limit defaults to 5, as in the source. The result size is the limit rule applied to the number of wanted publications. Everything returned is a wanted publication, in non-increasing citation order, and no publication is returned more often than it occurs. |
| Catalog.TopCited | mongodb_utils.py:20-21 | Any wanted publication left out is cited no more than every publication returned. |
| Catalog.AllReturnedWithinLimit | mongodb_utils.py:20-21 | When the limit does not bind, every wanted publication is returned. |
| Session.Login | app.py:40-44 | A user exists exactly when the form was submitted and the first name, last name and email are all non-empty. The user's email is the one entered, and the name is the first name, one space, then the last name. |
| Session.LoginNameSplits | app.py:42-43 | When the first name has no space, splitting the name at its first space gives back the first and last names. |
| Session.SubmitLogin | app.py:40-45 | On a successful login the store becomes `Cleared(old, email)` and the user has no favorites. Otherwise the store is untouched. |
| Session.RemoveInterest | app.py:66 | The interest no longer occurs. Every other interest keeps its count and its relative order. |
| Session.RemoveAbsentInterest | app.py:66 | Removing an interest that is not in the list leaves the list unchanged. |
| Session.RemoveInterestIdempotent | app.py:66 | Removing the same interest twice gives the same list as removing it once. |

## Left out

- The Streamlit page itself is outside the model: forms, buttons, `st.rerun`, `st.stop`, the session-state cache, publication listings and their formatting.
- The `agraph` rendering and its configuration are outside the model. `BuildNetwork` takes the co-keyword query's rows as a parameter.
- The publication-trend charts (matplotlib) and the `datetime` handling are outside the model. The save timestamp `datetime.utcnow()` is the parameter `now`.
- The relational store (mysql_utils.py) and the graph store (neo4j_utils.py) are not part of this model. Their query results enter only as parameters.
- Connections, clients and their failures are not modelled. Every store call is assumed to succeed.
- Favorites.FavoritesStore.SaveToFavorites: the check-then-insert is modelled as one atomic step. Two interleaved sessions saving the same pair can both insert in the source; that duplicate is not modelled.
- The session also calls `get_user_interests`, `save_user_interests` and `get_publication_counts_by_keyword`. They are imported but never defined in the sources, so only the list computation at app.py:66 is modelled, not how the list is loaded or saved.
- app.py:108 passes `university_filter` to `get_faculty_by_keywords`, and that function has a different signature. The relational search is outside the model anyway.
- app.py:75-78 looks up each favorite's faculty document and reads `prof['name']`. A faculty id that does not resolve makes the source fail there. That display loop is not modelled; `Catalog.FacultyById` returns `None` for such an id.
- Catalog.SortByCitations: the store leaves the order of publications with equal citation counts unspecified. The model picks one particular order (a stable insertion sort), and no contract depends on it.
- Catalog.FacultyRecord: documents missing `name` or `affiliation.name` are not modelled. The model assumes every faculty document has both. A document without `name` would make `get_all_faculty_names` raise, and `distinct` would skip one without `affiliation.name`.
- Collection order: the model takes a collection's natural order to be insertion order. `SaveToFavorites` appends at the end, and "first matching document" in `Favorites.FindOne`, `Favorites.RemovedOne`, `Catalog.FacultyByName` and `Catalog.FacultyById` is first in that order. The store does not promise this order, so which of several matching documents `find_one` or `delete_one` picks is an assumption of the model.
- Catalog.Publication: a publication without `numCitations` (which the store sorts as missing) is not modelled.
- Network.Node: shape and colour are carried as the source's literal strings. No property is stated about them beyond the node constructors.
