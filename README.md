# Adjudicados — a verified model of the assignment core

Adjudicados is the EsSalud system that assigns ("adjudica") job positions
(*plazas*) to ranked candidates (*postulantes*). Each position belongs to an
IPRESS (a health facility) of a *red* (a network) and to a *grupo
ocupacional* (an occupational group). This project models the backend's
assignment lifecycle and the rules around it:

- the per-entity validators and delete guards;
- the spreadsheet import;
- the SQL builders of the base model;
- the controllers' status selection, branch choice and pagination;
- the middleware;
- the general utilities;
- the Angular component's assignment modal.

It also proves properties of that model in Dafny.

The PostgreSQL database is a value of in-memory tables (`Store.Tables`):

- each table is a sequence of rows in physical order;
- a `LEFT JOIN adjudicaciones` on a candidate gives the candidate's first assignment row (`RowFor`), which is the only one under the invariant `Adjudicaciones.Coherente` (one row per candidate); with several rows SQL would give one output row per assignment row;
- they sit inside the one mutable object `Store.Database`, which also holds the id sequence;
- a transaction that ends in `COMMIT` replaces the tables;
- one that ends in `ROLLBACK` leaves them as they were.

The view `plazas_con_disponibilidad` and the routines `validar_adjudicacion`
and `obtener_plazas_disponibles` are not part of the repository's files. They
are modelled under a stated assumption:

- the view is the inner join of positions, IPRESS, networks and groups, in position order;
- a position's taken seats are its assignment rows in state `adjudicado`;
- `libres = total - asignados`;
- an assignment is valid exactly when no check of `getDetallesValidacion` fails.

The clock (`CURRENT_TIMESTAMP`, `new Date()`, `Date.now()`) is a parameter
`now`. A date column holds either a moment or nothing.

The modules follow the source files:

| module | source |
|---|---|
| `Store`, `Relational`, `Wrappers` | the tables, SQL's relational operators, Option/Result |
| `Text`, `Valores`, `Numeric`, `Pagination` | JavaScript's string operations (letter case for ASCII and Latin-1), PostgreSQL's `LIKE`/`ILIKE`, `parseInt`/truthiness, `Math.round` percentages, `slice`/`Math.ceil` paging |
| `BaseModel` | `backend/src/models/BaseModel.js` |
| `Adjudicaciones`, `AdjudicacionConsultas` | `backend/src/models/Adjudicacion.js` |
| `Postulantes`, `Plazas`, `GruposOcupacionales`, `Redes`, `Ipresses` | the other models |
| `Planilla`, `Carga` | `backend/src/controllers/UploadController.js` (row validators; writes) |
| `BaseController`, `AdjudicacionController`, `PostulanteController`, `PlazaController`, `GrupoOcupacionalController` | the controllers |
| `Auth`, `ErrorHandler`, `Common` | `backend/src/middleware/` |
| `App` | `backend/app.js` |
| `Utils` | `backend/src/utils/index.js` |
| `Frontend` | `frontend/src/app/app.component.ts` |

The following are written imperatively, as the source has them:

- the assignment transitions and the bulk assignment loop;
- the delete operations;
- the upload's find-or-insert writes and its row loops;
- the red/IPRESS grouping;
- the rate limiter;
- `sanitizeInput`;
- `simpleHash`, `groupBy` and `filterProperties`;
- the component's modal handlers.

Each of them is proved against a function of the old state, together with the properties of that function.

## Model

| member | source | states |
|---|---|---|
| Store.EstadoTextRoundTrip | frontend/src/app/models/interfaces.ts:58 | each of the five states has its own stored text, and reading that text back gives the state |
| Store.VistaLibres | backend/src/models/Plaza.js:12-19 | a row of the availability view describes an existing position, and its `libres` is that position's free seats, `total - asignados` |
| Store.VistaUnica | backend/src/models/Plaza.js:12-19 | the view has one row per position: its ids are unique |
| BaseModel.WhereAlineado | backend/src/models/BaseModel.js:15-31 | in `findAll` and `count`, the WHERE clause has one `key = $k` piece per condition, joined by AND, and placeholder `$k` is bound to that condition's value |
| BaseModel.NumeroDePlaceholder | backend/src/models/BaseModel.js:19-25 | the text `$k` reads back as the number `k` |
| BaseModel.CreateAlineado | backend/src/models/BaseModel.js:45-58 | `create` lists the n columns with placeholders `$1..$n`, and column i is bound to its own value |
| BaseModel.UpdateAlineado | backend/src/models/BaseModel.js:63-79 | `update` binds the id to `$1` and column i to `$(i+2)`, and its SET list always also assigns `updated_at` |
| BaseModel.PaginationAlineado | backend/src/models/BaseModel.js:120-148 | the LIMIT and OFFSET placeholders are `$(n+1)` and `$(n+2)` after the n condition parameters, bound to `limit` and `(page-1)*limit` |
| BaseModel.ExistsIff | backend/src/models/BaseModel.js:112-115 | `exists` holds exactly when the count is positive, that is, when some row satisfies every condition |
| BaseModel.DeleteEfecto | backend/src/models/BaseModel.js:36-88 | `findById`, `update` and `delete` return null when no row has the id, and then leave the table unchanged; after a delete no row has the id, and one row fewer remains when keys are unique |
| BaseModel.DeleteCuenta | backend/src/models/BaseModel.js:84-88 | the rows a DELETE keeps plus the rows with that id are the whole table |
| BaseModel.PaginacionComoSlice | backend/src/models/BaseModel.js:120-148 | for `page, limit >= 1`, the page returned is the controllers' slice `[(page-1)*limit, (page-1)*limit+limit)`, with the same total and `pages = ceil(total/limit)` |
| Adjudicaciones.DetallesValidacionOrden | backend/src/models/Adjudicacion.js:335-383 | the message names the first failing check, in the order: candidate missing, already assigned, renounced, no free seat (unknown position included), group mismatch; the fallback 'Error desconocido' appears exactly when every check passes |
| Adjudicaciones.ValidarAdjudicacion | backend/src/models/Adjudicacion.js:300-330 | valid exactly under the assumed meaning of the stored check; an invalid answer carries the first failing check's message, never the fallback |
| Adjudicaciones.AfterAdjudicar | backend/src/models/Adjudicacion.js:12-62 | `adjudicarAutomatico` fails exactly when validation fails, and with validation's message |
| Adjudicaciones.AfterDesistido | backend/src/models/Adjudicacion.js:67-127 | `marcarDesistido` fails exactly for a missing candidate or one in state 'adjudicado', with the matching message |
| Adjudicaciones.AfterRenuncia | backend/src/models/Adjudicacion.js:132-168 | `marcarRenuncia` fails exactly when the candidate has no 'adjudicado' row |
| Adjudicaciones.AfterAusente | backend/src/models/Adjudicacion.js:173-233 | `marcarAusente` succeeds exactly for an existing candidate with no row or a 'pendiente' row; otherwise it fails with the matching message |
| Adjudicaciones.AfterReasignar | backend/src/models/Adjudicacion.js:238-295 | `reasignar` succeeds exactly when the candidate exists and has a row in desistido, ausente or renuncio; otherwise it fails with one of the three messages, the last naming the current state |
| Adjudicaciones.AfterRevertir | backend/src/models/Adjudicacion.js:587-605 | `revertirAdjudicacion` fails exactly when no row with that id is 'adjudicado' |
| Adjudicaciones.UpsertEfecto | backend/src/models/Adjudicacion.js:34-54 | UPDATE-or-INSERT leaves the candidate exactly one row, the returned one; other candidates' rows and the other tables are unchanged; taken seats change by the new row's share minus the old row's |
| Adjudicaciones.AdjudicarEfecto | backend/src/models/Adjudicacion.js:12-62 | on success the candidate has exactly one row, 'adjudicado' at the position with the date set, updated in place, keeping its withdrawal date, or inserted with the next id and none; exactly one more seat of that position is taken; nothing else changes; the invariant (one row per candidate, no position over-assigned) is kept |
| Adjudicaciones.DesistidoEfecto | backend/src/models/Adjudicacion.js:81-116 | on success the candidate has one 'desistido' row with `fecha_desistimiento` set; an existing row keeps its position and assignment date; no seat changes hands |
| Adjudicaciones.RenunciaEfecto | backend/src/models/Adjudicacion.js:139-157 | the 'adjudicado' row becomes 'renuncio' with `fecha_desistimiento` set and keeps its position; the seat is freed; the candidate can no longer be assigned |
| Adjudicaciones.AusenteEfecto | backend/src/models/Adjudicacion.js:187-222 | on success the candidate has one 'ausente' row with `fecha_desistimiento` set; no seat changes hands |
| Adjudicaciones.ReasignarEfecto | backend/src/models/Adjudicacion.js:245-284 | the row returns to 'pendiente' with position and both dates cleared; no seat changes hands; the candidate can again be assigned, marked absent or withdrawn |
| Adjudicaciones.RevertirEfecto | backend/src/models/Adjudicacion.js:587-605 | only the row with that id changes, from 'adjudicado' to 'pendiente', with position and assignment date cleared and `fecha_desistimiento` kept; its seat is freed; a second call fails |
| Adjudicaciones.AdjudicarAutomatico | backend/src/models/Adjudicacion.js:12-62 | the database afterwards and the answer are those of `AfterAdjudicar` on the old tables; on failure nothing changes |
| Adjudicaciones.MarcarDesistido | backend/src/models/Adjudicacion.js:67-127 | the database afterwards and the answer are those of `AfterDesistido` |
| Adjudicaciones.MarcarRenuncia | backend/src/models/Adjudicacion.js:132-168 | the database afterwards and the answer are those of `AfterRenuncia` |
| Adjudicaciones.MarcarAusente | backend/src/models/Adjudicacion.js:173-233 | the database afterwards and the answer are those of `AfterAusente` |
| Adjudicaciones.Reasignar | backend/src/models/Adjudicacion.js:238-295 | the database afterwards and the answer are those of `AfterReasignar` |
| Adjudicaciones.RevertirAdjudicacion | backend/src/models/Adjudicacion.js:587-605 | the database afterwards and the answer are those of `AfterRevertir` |
| Adjudicaciones.CandidatosMasiva | backend/src/models/Adjudicacion.js:500-509 | the bulk loop's candidates are in merit order, each a candidate of the group with no row or a 'pendiente' row, and there are min(`cantidad`, #such candidates) of them (none when `cantidad` ≤ 0) |
| Adjudicaciones.CandidatosMasivaHechos | backend/src/models/Adjudicacion.js:500-509 | with unique keys, the candidates considered have pairwise distinct ids |
| Adjudicaciones.PlazasMasivaHechos | backend/src/models/Adjudicacion.js:511-518 | the positions offered are pairwise distinct, each exists and has a free seat |
| Adjudicaciones.Emparejar | backend/src/models/Adjudicacion.js:524-571 | the committed pairs: never more than candidates or positions; the i-th pair takes the i-th listed position (a failed write does not use one up); every pair's candidate is one of the candidates |
| Adjudicaciones.EmparejarSinRechazos | backend/src/models/Adjudicacion.js:524-571 | without failed writes, the loop pairs min(#candidates, #positions) candidates |
| Adjudicaciones.EmparejarOrden | backend/src/models/Adjudicacion.js:524-571 | candidates are served in the order they come, so in merit order |
| Adjudicaciones.EmparejarDistintos | backend/src/models/Adjudicacion.js:524-571 | distinct candidates in give distinct candidates out |
| Adjudicaciones.MasivaCotas | backend/src/models/Adjudicacion.js:494-582 | the bulk run never makes more assignments than positions offered, than eligible candidates, or (for `cantidad` ≥ 0) than `cantidad` |
| Adjudicaciones.AfterMasiva | backend/src/models/Adjudicacion.js:494-582 | the bulk run fails exactly when the group has no position with a free seat, and then with the 'no positions for this group' message |
| Adjudicaciones.MasivaEfecto | backend/src/models/Adjudicacion.js:494-582 | on success each paired candidate has exactly one 'adjudicado' row at their position; the rows come back in pairing order; each position used loses one seat and no other does; no position ends over its seats |
| Adjudicaciones.MasivaCapacidad | backend/src/models/Adjudicacion.js:524-571 | pairs that use distinct positions, each with a free seat, overfill none |
| Adjudicaciones.ProcesarAdjudicacionesMasivas | backend/src/models/Adjudicacion.js:494-582 | the database afterwards and the rows returned are those of `AfterMasiva` over the two queries and the loop's pairing |
| Adjudicaciones.EscribirPares | backend/src/models/Adjudicacion.js:524-571 | the loop with its position cursor computes `Emparejar` and writes exactly those pairs |
| AdjudicacionConsultas.ContarParticion | backend/src/models/Adjudicacion.js:451-467 | every row is in exactly one state, so the five state counts add up to the total |
| AdjudicacionConsultas.EstadisticasSuma | backend/src/models/Adjudicacion.js:451-467 | the four reported counts leave out only 'ausente' rows; the assigned share, in hundredths of a percent, is at most 10000, and exactly 10000 when every row is assigned |
| AdjudicacionConsultas.CompletasOrden | backend/src/models/Adjudicacion.js:388-446 | the report lists rows without an assignment date first, then later dates before earlier ones, and within a date the better merit rank first |
| AdjudicacionConsultas.CompletasSinFiltros | backend/src/models/Adjudicacion.js:388-446 | with no filter, every assignment whose candidate and group exist is reported |
| AdjudicacionController.AdjudicarEndpoint | backend/src/controllers/AdjudicacionController.js:12-26 | 201 exactly when both ids are present and the model's validation passes, with the database and row the model's assignment gives; otherwise 400 with nothing changed, carrying the validation details when both ids were given |
| AdjudicacionController.MasivaEndpoint | backend/src/controllers/AdjudicacionController.js:154-175 | the group id is required; `cantidad` defaults to 10; a success reports the written rows |
| AdjudicacionController.MasivaTotal | backend/src/controllers/AdjudicacionController.js:158-170 | the reported total is the number of pairs, so at most `cantidad`, the group's pending candidates and its free positions |
| AdjudicacionController.UpdateData | backend/src/controllers/AdjudicacionController.js:263-284 | 'ausente', unknown or missing states are rejected; desistido and renuncio set `fecha_desistimiento`, adjudicado sets `fecha_adjudicacion`, pendiente neither; remarks only when given |
| AdjudicacionController.UpdateEstadoEfecto | backend/src/controllers/AdjudicacionController.js:258-295 | 400 for a missing or unknown state and 404 for a missing row, both without a change; otherwise 200 with exactly that row rewritten: the new state, today as the withdrawal date for 'desistido' and 'renuncio' or as the assignment date for 'adjudicado', the remark when a non-empty one is given, every other modelled column kept |
| AdjudicacionController.AplicarFila | backend/src/controllers/AdjudicacionController.js:272-284 | the columns the update overwrites: the state, one date chosen by the state, the remark only when given; the rest of the modelled row is kept |
| AdjudicacionController.UpdateEstadoSinControl | backend/src/controllers/AdjudicacionController.js:272-284 | there is no lifecycle or capacity check: a renounced row can be set back to 'adjudicado' on a full position, which the model's validation refuses, over-assigning it |
| AdjudicacionController.FiltrosHistorial | backend/src/controllers/AdjudicacionController.js:311-314 | `fechaInicio` becomes `fechaDesde` and `fechaFin` becomes `fechaHasta`; no red filter is set |
| AdjudicacionController.HistorialPagina | backend/src/controllers/AdjudicacionController.js:321-333 | a history page holds the report rows from `(page-1)*limit` on, at most `limit` of them |
| AdjudicacionController.HistorialVacia | backend/src/controllers/AdjudicacionController.js:321-333 | a history page is empty exactly when it lies past `ceil(total/limit)` |
| AdjudicacionController.HistorialFiltra | backend/src/controllers/AdjudicacionController.js:300-342 | every row of a history page meets the state, group and date filters of the query |
| AdjudicacionController.HistorialIgnora | backend/src/controllers/AdjudicacionController.js:300-342 | `redId`, `fechaDesde` and `fechaHasta` in the query have no effect on the history |
| AdjudicacionController.DashboardTasas | backend/src/controllers/AdjudicacionController.js:204-216 | the withdrawal and renunciation rates are 0 without assignment rows and at most 100 otherwise; a red with no rows gets 0, one whose rows are all assigned gets 100 |
| Postulantes.TiempoServicioMonotono | backend/src/models/Postulante.js:286-288 | `365a + 30m + d` is monotone in each argument |
| Postulantes.FindByOrdenMerito | backend/src/models/Postulante.js:153-164 | a row found is a candidate of that group with that rank |
| Postulantes.FindByDni | backend/src/models/Postulante.js:137-148 | a row found is a candidate with that DNI |
| Postulantes.ValidateForCreation | backend/src/models/Postulante.js:211-235 | the message of the first failing check: group missing, rank taken in the group, DNI taken |
| Postulantes.CreacionOrden | backend/src/models/Postulante.js:211-235 | the checks come in that fixed order, with distinct messages |
| Postulantes.ValidateForUpdate | backend/src/models/Postulante.js:240-264 | a missing group gives exactly the group message; any other refusal names a rank or a DNI clash |
| Postulantes.UpdateIgnoraPropio | backend/src/models/Postulante.js:240-264 | a rank or DNI held only by the record itself is no clash on update, though it is on creation |
| Postulantes.UpdateDetectaOtro | backend/src/models/Postulante.js:240-264 | a rank held by another record is still rejected on update |
| Postulantes.AfterDeletePostulante | backend/src/models/Postulante.js:269-281 | the delete is refused whenever any assignment row references the candidate, in any state |
| Postulantes.DeletePostulanteUno | backend/src/models/Postulante.js:269-281 | a candidate that exists and has no assignment row is removed, and only that row |
| Postulantes.DeletePostulante | backend/src/models/Postulante.js:269-281 | the database and the answer afterwards are those of `AfterDeletePostulante` |
| Postulantes.BusquedaPendienteSinFila | backend/src/models/Postulante.js:51-97 | with `estado = 'pendiente'`, candidates with no assignment row are found too |
| Postulantes.BusquedaOrden | backend/src/models/Postulante.js:97-99 | the results come in ascending merit order |
| Postulantes.BusquedaConjuntiva | backend/src/models/Postulante.js:51-97 | the filters combine conjunctively: dropping one never loses a row |
| Postulantes.BusquedaMonotona | backend/src/models/Postulante.js:51-97 | when every candidate that meets one set of filters also meets another, every row the first search returns is returned by the second |
| Postulantes.GetSiguientePostulante | backend/src/models/Postulante.js:191-206 | the group's candidate with no row or a 'pendiente' row and the least rank, or none when there is none |
| Postulantes.GetPostulantesByRango | backend/src/models/Postulante.js:293-309 | exactly the group's candidates with `inicio <= orden_merito <= fin`, in ascending rank |
| Postulantes.RangoVacio | backend/src/models/Postulante.js:293-309 | a range whose start is past its end is empty |
| Plazas.CheckAvailability | backend/src/models/Plaza.js:143-156 | null for a position the view lacks; otherwise `disponible` holds exactly when `libres > 0` |
| Plazas.CheckAvailabilityLibres | backend/src/models/Plaza.js:143-156 | with unique keys, the answer describes the position's own free seats |
| Plazas.SearchPlazas | backend/src/models/Plaza.js:44-117 | the view rows meeting every given filter, the specialty by `especialidad ILIKE '%term%'` with `%`, `_` and `\` in the term read as pattern characters, in the view's order |
| Plazas.SoloDisponiblesLibres | backend/src/models/Plaza.js:68-102 | with `soloDisponibles`, every row found is a position with a free seat |
| Plazas.AvailableLibres | backend/src/models/Plaza.js:122-138 | every row `getAvailablePlazas` returns has a free seat |
| Plazas.AvailableComoBusqueda | backend/src/models/Plaza.js:122-138 | `getAvailablePlazas(g)` finds the same rows as the search with `soloDisponibles` and group g |
| Plazas.ValidateForCreation | backend/src/models/Plaza.js:182-214 | the first failing check: IPRESS missing, group missing, combination (ipress, group, specialty) taken |
| Plazas.SinEspecialidadSoloNull | backend/src/models/Plaza.js:182-214 | with no specialty, only a position whose specialty is NULL clashes |
| Plazas.ValidateForUpdate | backend/src/models/Plaza.js:219-251 | the same checks, the last excluding the position's own id |
| Plazas.UpdateIgnoraPropia | backend/src/models/Plaza.js:219-251 | a position that is the only holder of its combination passes its own update check |
| Plazas.CreacionImplicaUpdate | backend/src/models/Plaza.js:182-251 | data that passes the creation check passes the update check of any position |
| Plazas.AfterDeletePlaza | backend/src/models/Plaza.js:256-268 | the delete is refused whenever any assignment row references the position |
| Plazas.DeletePlazaQuita | backend/src/models/Plaza.js:256-268 | after a successful delete no position has the id, and the view has no row for it |
| Plazas.DeletePlaza | backend/src/models/Plaza.js:256-268 | the database and the answer afterwards are those of `AfterDeletePlaza` |
| Plazas.TotalesConsistentes | backend/src/models/Plaza.js:273-287 | when every row's free seats are its total less its taken ones, the summed free seats are the summed total less the summed taken |
| Plazas.AgruparParticiona | backend/src/models/Plaza.js:292-325 | the groups of a `GROUP BY` partition the rows: their counts and sums add up to those of the whole view |
| Plazas.PorRedSumaGenerales | backend/src/models/Plaza.js:273-306 | the per-red groups add up to `total_plazas` and to the general seat total, and the per-group groups add up to `total_plazas` |
| GruposOcupacionales.FindByNombre | backend/src/models/GrupoOcupacional.js:12-16 | a group with exactly that name, or null exactly when no group has it |
| GruposOcupacionales.SearchTodo | backend/src/models/GrupoOcupacional.js:121-129 | the empty term matches every group |
| GruposOcupacionales.ValidateForCreation | backend/src/models/GrupoOcupacional.js:150-156 | rejected exactly when a group has that exact name |
| GruposOcupacionales.ValidateForUpdate | backend/src/models/GrupoOcupacional.js:161-167 | accepted when every group with the name has this id; rejected when some group has the name and none of them has this id; a rejection always names a group with that name and another id |
| GruposOcupacionales.UpdateIgnoraPropio | backend/src/models/GrupoOcupacional.js:150-167 | renaming a group to its own name passes, though creating one with that name fails |
| GruposOcupacionales.AfterDeleteGrupo | backend/src/models/GrupoOcupacional.js:172-194 | positions are checked first, with the positions message, and only then candidates, with theirs; with neither the row is deleted |
| GruposOcupacionales.BorraGrupo | backend/src/models/GrupoOcupacional.js:172-194 | the delete reports the group found under the id and keeps exactly the other groups |
| GruposOcupacionales.DeleteGrupoQuita | backend/src/models/GrupoOcupacional.js:172-194 | after a successful delete no group has the id and no row referenced it |
| GruposOcupacionales.DeleteGrupo | backend/src/models/GrupoOcupacional.js:172-194 | the database and the answer afterwards are those of `AfterDeleteGrupo` |
| GruposOcupacionales.MaxOrden | backend/src/models/GrupoOcupacional.js:214-222 | `MAX(orden_merito)` is NULL over no candidates and otherwise a rank at least every rank |
| GruposOcupacionales.GetNextOrdenMerito | backend/src/models/GrupoOcupacional.js:214-222 | 1 for an empty group, and otherwise exactly one past the highest rank in the group |
| GruposOcupacionales.GetEspecialidades | backend/src/models/GrupoOcupacional.js:134-145 | the distinct, non-null, non-empty specialties of the group's positions, sorted |
| GruposOcupacionales.GetPostulantes | backend/src/models/GrupoOcupacional.js:87-116 | the group's candidates in merit order, optionally in one state |
| GruposOcupacionales.PendienteExigeFila | backend/src/models/GrupoOcupacional.js:87-116 | filtering by 'pendiente' matches only candidates that have a row, unlike the candidate search |
| Redes.FindByNombre | backend/src/models/Red.js:12-16 | a red with exactly that name, or null exactly when no red has it |
| Redes.ValidateForCreation | backend/src/models/Red.js:93-99 | rejected exactly when a red has that name |
| Redes.ValidateForUpdate | backend/src/models/Red.js:104-110 | accepted when every red with the name has this id; rejected when some red has the name and none of them has this id; a rejection always names a red with that name and another id |
| Redes.UpdateIgnoraPropio | backend/src/models/Red.js:93-110 | a red keeping its name passes the update check, though creating one with it fails |
| Redes.AfterDeleteRed | backend/src/models/Red.js:115-127 | the delete is refused while an IPRESS references the red; otherwise the row is deleted |
| Redes.DeleteRedQuita | backend/src/models/Red.js:115-127 | after a successful delete no red has the id, and every IPRESS still finds the red it found before |
| Redes.DeleteRed | backend/src/models/Red.js:115-127 | the database and the answer afterwards are those of `AfterDeleteRed` |
| Redes.AgruparIds | backend/src/models/Red.js:55-74 | one entry per distinct `red_id`, in order of first appearance |
| Redes.AgruparEntrada | backend/src/models/Red.js:66-71 | each entry holds exactly the IPRESS of the rows with its `red_id` and a non-null IPRESS, in row order |
| Redes.GetRedesWithIpress | backend/src/models/Red.js:41-75 | the `forEach` over the rows builds the grouping `Agrupar` of the join |
| Redes.PasoFila | backend/src/models/Red.js:41-75 | one row of the `forEach` adds the row to its network's entry, keeping entries distinct and the index map in step with them |
| Redes.RedesCompletas | backend/src/models/Red.js:41-75 | the result has one entry for every red of the table and no other |
| Ipresses.FindByNombre | backend/src/models/Ipress.js:45-56 | an IPRESS with exactly that name, in the red when one is given, or null exactly when there is none |
| Ipresses.SearchByNombre | backend/src/models/Ipress.js:61-81 | the IPRESS whose name satisfies `ILIKE '%term%'`, with `%`, `_` and `\` in the term read as pattern characters, in the red when given, whose red exists, ordered by red and IPRESS name |
| Ipresses.SearchEnRed | backend/src/models/Ipress.js:61-81 | with a red given, only IPRESS of that red are listed |
| Ipresses.ValidateForCreation | backend/src/models/Ipress.js:151-165 | the red must exist, then no IPRESS of that red may have the name |
| Ipresses.ValidateForUpdate | backend/src/models/Ipress.js:170-184 | the same checks, ignoring a clash with its own id |
| Ipresses.UpdateIgnoraPropio | backend/src/models/Ipress.js:151-184 | an IPRESS keeping its name and red passes the update check, though a creation with them fails |
| Ipresses.OtraRedNoChoca | backend/src/models/Ipress.js:151-165 | the same name in another red is no clash |
| Ipresses.RedCeroGlobal | backend/src/models/Ipress.js:45-56 | a red id of 0 is falsy, so the lookup runs over every red |
| Ipresses.AfterDeleteIpress | backend/src/models/Ipress.js:189-201 | the delete is refused while a position references the IPRESS; otherwise the row is deleted |
| Ipresses.DeleteIpressQuita | backend/src/models/Ipress.js:189-201 | after a successful delete no IPRESS has the id |
| Ipresses.DeleteIpress | backend/src/models/Ipress.js:189-201 | the database and the answer afterwards are those of `AfterDeleteIpress` |
| Planilla.EnBlancoTrim | backend/src/controllers/UploadController.js:122-140 | the blank test is `!v \|\| v.toString().trim() === ''` |
| Planilla.Mensaje | backend/src/controllers/UploadController.js:117-168 | the message starts with the row's spreadsheet number, index + 2 |
| Planilla.ValidarPostulantes | backend/src/controllers/UploadController.js:114-175 | the loop with early return and the `omsVistos` set gives the first refusal by `PostulantesDesde` |
| Planilla.RevisarPostulante | backend/src/controllers/UploadController.js:117-168 | the checks on one row give the refusal `MotivoPostulante` names, in the source's order |
| Planilla.AceptaPostulantes | backend/src/controllers/UploadController.js:114-175 | the candidates are accepted exactly when every row has all required columns and a numeric rank above 0, and no two rows share a rank |
| Planilla.PrimerPostulanteMalo | backend/src/controllers/UploadController.js:117-168 | a refusal names the first failing row, and its first failed check in the order OM, Apellidos, Nombres, Grupo, OM > 0, OM repeated |
| Planilla.ValidarPlazas | backend/src/controllers/UploadController.js:182-234 | the loop with early return gives the first incomplete row |
| Planilla.AceptaPlazas | backend/src/controllers/UploadController.js:182-234 | the positions are accepted exactly when every row has Red, Ipress and Grupo non-blank and an integer count above 0 |
| Planilla.PrimeraPlazaMala | backend/src/controllers/UploadController.js:188-233 | a refusal names the first incomplete row and the first check it fails |
| Carga.BuscarOInsertarHalla | backend/src/controllers/UploadController.js:241-261 | the id handed back names a matching row; a row is inserted exactly when none matched |
| Carga.BuscarOInsertarIdempotente | backend/src/controllers/UploadController.js:241-261 | a second find-or-insert of the same row finds the first one's and changes nothing |
| Carga.GrupoGuardadoHalla | backend/src/controllers/UploadController.js:241-261 | only the groups table changes, by at most one row stored under the upper-cased trimmed name |
| Carga.GrupoGuardadoIdempotente | backend/src/controllers/UploadController.js:241-261 | saving the same group name twice gives the same id and inserts at most once |
| Carga.RedGuardadaHalla | backend/src/controllers/UploadController.js:340-360 | only the networks table changes, by at most one row stored under the normalised name |
| Carga.RedGuardadaIdempotente | backend/src/controllers/UploadController.js:340-360 | saving the same network twice gives the same id and inserts at most once |
| Carga.IpressGuardadaHalla | backend/src/controllers/UploadController.js:365-385 | only the IPRESS table changes, by at most one row of that red under the normalised name |
| Carga.IpressGuardadaIdempotente | backend/src/controllers/UploadController.js:365-385 | saving the same IPRESS in the same red twice gives the same id and inserts at most once |
| Carga.GuardarGrupoOcupacional | backend/src/controllers/UploadController.js:241-261 | the database afterwards and the id are those of `GrupoGuardado` |
| Carga.GuardarRed | backend/src/controllers/UploadController.js:340-360 | the database afterwards and the id are those of `RedGuardada` |
| Carga.GuardarIpress | backend/src/controllers/UploadController.js:365-385 | the database afterwards and the id are those of `IpressGuardada` |
| Carga.UnicosClaves | backend/src/controllers/UploadController.js:266-293 | the set of group names fails exactly when a truthy group cell is not text; otherwise it holds each upper-cased trimmed group name of the rows once |
| Carga.GruposGuardadosClaves | backend/src/controllers/UploadController.js:266-293 | the group map has exactly the collected names as keys |
| Carga.GruposGuardadosNombran | backend/src/controllers/UploadController.js:266-293 | each key is mapped to the id of a group stored under that name |
| Carga.GuardarGruposOcupacionales | backend/src/controllers/UploadController.js:266-293 | the database afterwards and the map are those of saving the collected names of both sheets |
| Carga.DatosPostulanteNormales | backend/src/controllers/UploadController.js:300-333 | a read candidate row has upper-cased trimmed names, the cell's rank and a group id taken from the map |
| Carga.PostulantesGuardadosExito | backend/src/controllers/UploadController.js:300-333 | the rows are saved exactly when every row can be read and stored |
| Carga.PostulantesGuardadosFilas | backend/src/controllers/UploadController.js:300-333 | one candidate is inserted per row, each followed by one 'pendiente' assignment for it; the ids come back in row order; no other table changes |
| Carga.PostulantesFallan | backend/src/controllers/UploadController.js:300-333 | once a row throws, the whole call throws the same error |
| Carga.InscribirPostulantes | backend/src/controllers/UploadController.js:300-333 | the loop over the rows computes `PostulantesGuardados` |
| Carga.InscribirPostulante | backend/src/controllers/UploadController.js:300-333 | one row inserts the candidate and its pending assignment, extending the run by exactly `ConPostulante` |
| Carga.ConPlazaReusa | backend/src/controllers/UploadController.js:416-457 | a row ends on a position of its IPRESS, group, sub-unit '-' and specialty (a missing one also matching ''); an existing one is reused unchanged, otherwise one is inserted with the row's count as total |
| Carga.PlazasGuardadasIds | backend/src/controllers/UploadController.js:390-461 | one position id per row |
| Carga.PlazasGuardadasConservan | backend/src/controllers/UploadController.js:390-461 | no existing row is changed or removed; positions, networks, IPRESS and groups are only added to |
| Carga.GuardarPlazas | backend/src/controllers/UploadController.js:390-461 | the database, ids and map afterwards are those of `PlazasGuardadas` |
| Carga.SubirExcel | backend/src/controllers/UploadController.js:8-108 | the answer and the tables afterwards are those of `Subida`: checks before BEGIN, then the three writes, rolled back on failure |
| Carga.CargaSoloValida | backend/src/controllers/UploadController.js:12-72 | nothing is written unless a file with two sheets came, both non-empty, and both validators pass |
| Carga.CargaCuenta | backend/src/controllers/UploadController.js:80-88 | the reported counts are one per candidate row and one per position row |
| Carga.CargaGrupos | backend/src/controllers/UploadController.js:80-88 | `gruposOcupacionales` is the number of distinct group names on the two sheets |
| Carga.EscrituraGrupos | backend/src/controllers/UploadController.js:80-88 | after writing, the group map has one key per distinct group name of the two sheets |
| BaseController.SendErrorDetalle | backend/src/controllers/BaseController.js:273-284 | `error` is present only when an error is passed, holding its message or else the value itself, never an empty string |
| BaseController.CreateStatus | backend/src/controllers/BaseController.js:76-102 | `create` answers 201 on success and otherwise 409 exactly for a 'Ya existe' message, else 400 |
| BaseController.UpdateStatus | backend/src/controllers/BaseController.js:107-144 | 404 without a write exactly when the row is missing; otherwise 200, or 409 exactly for 'Ya existe', else 400 |
| BaseController.DespacharBorrado | backend/src/controllers/BaseController.js:164-176 | the delete called is the first present of deleteRed, deleteIpress, deleteGrupoOcupacional, deletePlaza, deletePostulante, else the generic one |
| BaseController.DespacharPropio | backend/src/controllers/BaseController.js:164-176 | a model with one entity-specific delete gets that one called |
| BaseController.DeleteStatus | backend/src/controllers/BaseController.js:149-196 | 404 without a write exactly when the row is missing; a failure answers 409 exactly when its message contains 'asociados' or 'asociadas' |
| BaseController.GetById | backend/src/controllers/BaseController.js:46-71 | the row with 200, or 404 when `findById` finds nothing |
| BaseController.SearchEndpoint | backend/src/controllers/BaseController.js:224-257 | 400 without a model call when `q` is missing or empty; otherwise the name search or `findAll` |
| PostulanteController.FiltradaSi | backend/src/controllers/PostulanteController.js:16-19 | the filtered path is taken exactly when a non-empty group id or estado, or any parameter other than page and limit, is given |
| PostulanteController.FiltrosSaneados | backend/src/controllers/PostulanteController.js:23-28 | the group id is forwarded only when `parseInt` reads it, as that integer; `estado` only as a non-empty string |
| PostulanteController.GetAllRuta | backend/src/controllers/PostulanteController.js:12-94 | the listing comes from the search exactly when filtered and from the view otherwise; without page and limit it is the whole result |
| PostulanteController.SaneadoEquivale | backend/src/controllers/PostulanteController.js:23-28 | the sanitation changes nothing the search would have done with the raw parameters |
| PostulanteController.GrupoCero | backend/src/controllers/PostulanteController.js:16-28 | `grupoOcupacionalId=0` takes the filtered path yet filters no group |
| PostulanteController.GetAllFiltra | backend/src/controllers/PostulanteController.js:12-94 | every row on the filtered path is a joined candidate row meeting the query's group and estado filters |
| PostulanteController.RangoGuarda | backend/src/controllers/PostulanteController.js:230-250 | a missing or empty bound answers 400; parsed bounds give the group's candidates ranked between them |
| PostulanteController.AcumularSuma | backend/src/controllers/PostulanteController.js:307-322 | the `reduce` ends holding, field by field, the sum of the rows' counts, with non-numeric values read as 0 |
| PostulanteController.AcumularNoNumerica | backend/src/controllers/PostulanteController.js:307-322 | a row whose counts are all NaN or 0 adds nothing |
| PostulanteController.AcumularConcat | backend/src/controllers/PostulanteController.js:307-322 | the totals of two runs of rows add up, so row order does not matter |
| PostulanteController.DashboardPorcentajes | backend/src/controllers/PostulanteController.js:324-333 | both percentages are 0 without candidates, and between 0 and 100 for real counts; likewise per group |
| PlazaController.RutaSi | backend/src/controllers/PlazaController.js:19-95 | the search answers exactly when a red, group or IPRESS id is given or `soloDisponibles` is 'true'; otherwise the view answers exactly when `soloDisponibles` is 'false' or no other parameter is given; else the generic listing |
| PlazaController.FiltrosSaneados | backend/src/controllers/PlazaController.js:22-34 | only ids that parse are forwarded, as integers; `soloDisponibles` only as true when it is the text 'true'; no specialty |
| PlazaController.GetAllSinEspecialidad | backend/src/controllers/PlazaController.js:22-34 | a specialty in the query makes no difference to the filtered listing |
| PlazaController.GetAllFiltra | backend/src/controllers/PlazaController.js:12-101 | every row listed by the search is a view row; with `soloDisponibles=true` it has a free seat; with a parsed red id it is of that red |
| PlazaController.GetAllBusqueda | backend/src/controllers/PlazaController.js:12-101 | on the search path the listing is that of `searchPlazas` with the sanitised filters |
| PlazaController.ValidatePlazaGuarda | backend/src/controllers/PlazaController.js:238-261 | 400 exactly when the IPRESS or group id is missing or 0, or `total` is absent (0 and null pass); otherwise the chosen path's check decides `valido` |
| PlazaController.ValidatePlazaSinIdBasta | backend/src/controllers/PlazaController.js:238-261 | data valid for creation stays valid when the body names a position to update |
| PlazaController.OcupacionAcotada | backend/src/controllers/PlazaController.js:275-290 | the occupancy of rows none of which is over-assigned is a percentage from 0 to 100 |
| PlazaController.GruposSinPosiciones | backend/src/controllers/PlazaController.js:275-290 | a group without seats has occupancy 0 |
| PlazaController.DashboardOcupacion | backend/src/controllers/PlazaController.js:266-298 | the occupancy of the view is 0 when it is empty, and, with no position over-assigned, that of the view and of each red and group is between 0 and 100 |
| GrupoOcupacionalController.ValidateGrupoGuarda | backend/src/controllers/GrupoOcupacionalController.js:137-146 | 400 'Nombre es requerido' exactly when the name is missing or empty; otherwise the update check exactly when an id is given |
| GrupoOcupacionalController.ValidateGrupoPropio | backend/src/controllers/GrupoOcupacionalController.js:133-156 | a group keeping its own name is valid on the update path, while the same name without an id is taken |
| GrupoOcupacionalController.AcumularSuma | backend/src/controllers/GrupoOcupacionalController.js:166-179 | the `reduce` ends holding the sum of the rows' counts and `totalGrupos` the number of rows |
| GrupoOcupacionalController.ResumenTotales | backend/src/controllers/GrupoOcupacionalController.js:161-199 | the summary counts the groups and adds each field with NaN and NULL read as 0; the overall rate is 0 without positions, and so is a group's with NULL or non-positive positions |
| GrupoOcupacionalController.ResumenFilaVacia | backend/src/controllers/GrupoOcupacionalController.js:168-171 | a row whose figures are all NaN, NULL or 0 counts as a group and adds nothing else |
| Auth.ExtraerTokenSi | backend/src/middleware/auth.js:11-21 | a token is found exactly when the header is present and neither empty nor exactly 'Bearer '; an exact 'Bearer ' prefix is stripped, otherwise the whole header is the token; a missing token is a 401 |
| Auth.ExtraerTokenBearer | backend/src/middleware/auth.js:11-21 | 'Bearer ' followed by a non-empty token gives that token back |
| Auth.AuthenticateEstados | backend/src/middleware/auth.js:7-38 | every rejection is a 401, and a user is attached only when the verifier decoded one |
| Auth.OptionalComoAuthenticate | backend/src/middleware/auth.js:43-70 | the optional variant attaches a user exactly when `authenticate` would, and the same user |
| Auth.AuthorizeSi | backend/src/middleware/auth.js:75-87 | 401 without a user, 403 when the role is not listed, through otherwise |
| Auth.AuthorizeSinRoles | backend/src/middleware/auth.js:75-87 | with no role listed nobody passes |
| Auth.ValidateApiKeySi | backend/src/middleware/auth.js:154-175 | a key is accepted exactly when it is given, non-empty and in the configured list, and then it is attached with type 'api_key'; otherwise 401 |
| Auth.LimitarPreserva | backend/src/middleware/auth.js:116-149 | every entry of the limiter's map stays between 1 and `MAX_REQUESTS` |
| Auth.LimitarCasos | backend/src/middleware/auth.js:122-147 | a request without a user passes and leaves the map untouched; a user's first request creates the entry `{count 1, resetTime now + window}` and passes; a rejected request changes nothing |
| Auth.LimitarVentana | backend/src/middleware/auth.js:136-147 | the window restarts (count 1, new reset time) exactly when `now` is strictly past the reset time; inside it the count goes up by one while below 1000, and a request is refused at 1000 |
| Auth.VentanaAcotada | backend/src/middleware/auth.js:136-147 | inside one window at most 1000 requests of a user pass |
| Auth.VentanaNueva | backend/src/middleware/auth.js:129-132 | a user's first request opens a window of `WINDOW` milliseconds from `now` |
| Auth.UserRateLimit.Handle | backend/src/middleware/auth.js:116-149 | one request updates the map in place to `Limitar` of the old map, answering pass or 429 as it does |
| ErrorHandler.ApiErrorDefectos | backend/src/middleware/errorHandler.js:7-14 | omitted arguments give status 500 and `isOperational` true |
| ErrorHandler.UltimaReglaGana | backend/src/middleware/errorHandler.js:26-71 | the error is replaced exactly when some rule matches, and then by the last rule that matches |
| ErrorHandler.CodigosPostgres | backend/src/middleware/errorHandler.js:27-48 | a Postgres code alone picks the status: 23505 is 409, 23503 and 23514 are 400, 42601 and 42P01 are 500 |
| ErrorHandler.Precedencia | backend/src/middleware/errorHandler.js:26-71 | later checks override earlier ones: Joi over Postgres, a JWT name over Joi, a Multer code over a JWT name |
| ErrorHandler.SinRegla | backend/src/middleware/errorHandler.js:18-74 | an error no rule matches keeps its own non-zero status, else gets 500 |
| ErrorHandler.SoloEnDesarrollo | backend/src/middleware/errorHandler.js:77-80 | the stack and the error appear in the body exactly when `NODE_ENV` is 'development' |
| ErrorHandler.ApiErrorPasa | backend/src/middleware/errorHandler.js:6-74 | an `APIError` of the application reaches the client with its own non-zero status and message |
| ErrorHandler.NotFoundRespuesta | backend/src/middleware/errorHandler.js:85-89 | an unknown route is answered with 404, and the message contains the requested URL |
| Common.CorsOrigenSi | backend/src/middleware/common.js:11-24 | a missing origin is allowed; any other origin exactly when it is one of the comma-separated (untrimmed) entries, or of the two defaults when unset; an origin holding a comma is never listed |
| Common.CorsSinRecorte | backend/src/middleware/common.js:11-24 | with 'a, b' configured the origin 'b' is refused, as the entry is ' b' |
| Common.ValidateContentTypeSi | backend/src/middleware/common.js:152-164 | only POST, PUT and PATCH are checked, and they are refused with 400 exactly when the header is missing or lacks 'application/json' |
| Common.ContentTypeConParametros | backend/src/middleware/common.js:152-164 | 'application/json' followed by parameters passes |
| Common.SaneadoPropiedades | backend/src/middleware/common.js:169-187 | sanitising keeps the key set, leaves non-strings alone, trims every string, and is idempotent |
| Common.SanitizarObjeto | backend/src/middleware/common.js:172-184 | the `for...in` loop, visiting each key once in any order, gives the sanitised object |
| Common.Peticion.SanitizeInput | backend/src/middleware/common.js:169-187 | the query and, when present, the body become their sanitised forms in place |
| Common.RetryAfter | backend/src/middleware/common.js:51-57 | `ceil(windowMs / 1000)`: the least whole number of seconds covering the window |
| Common.RetryAfterLimitadores | backend/src/middleware/common.js:41-77 | the limiters tell a client to wait 900, 900 and 60 seconds, the general one unless configured |
| App.CorsOrigenSi | backend/app.js:41-56 | a missing origin, or one containing 'localhost' or '127.0.0.1', passes; any other exactly when it equals a trimmed entry of `CORS_ORIGINS`, or one of the three defaults when unset |
| App.DefectosLocales | backend/app.js:46-48 | every default origin is local, so without configuration only missing and local origins pass |
| App.RecorteDistingue | backend/app.js:46-48 | the application trims its allowlist where the common middleware does not, so with 'a, b' configured the origin 'b' passes here and is refused there |
| App.SinCacheSi | backend/app.js:107-120 | exactly the paths beginning with '/api' get the four no-cache headers, '/apidocs' included; others get none |
| Utils.FormatResponseCampos | backend/src/utils/index.js:12-28 | `data` is included exactly when it is not null, and `errors` exactly when it is truthy |
| Utils.FlagsPaginacion | backend/src/utils/index.js:33-45 | `hasNext` holds exactly when the next page has rows (`page < pages`), and `hasPrev` exactly when `page > 1` |
| Utils.NumericoLegible | backend/src/utils/index.js:50-67 | a valid DNI is numeric, reads back by `parseInt` as its digits' value and is less than 10^8 |
| Utils.NormalizeTextSpec | backend/src/utils/index.js:109-115 | '' for an empty input; otherwise no whitespace at the ends, no run of two whitespace characters, and no lower case |
| Utils.NormalizeTextIdempotente | backend/src/utils/index.js:109-115 | normalising twice is normalising once |
| Utils.GenerateSlugSpec | backend/src/utils/index.js:128-135 | a slug holds only `[a-z0-9-]`, neither starts nor ends with '-', and has no '--' |
| Utils.GenerateSlugFijo | backend/src/utils/index.js:128-135 | a slug is its own slug |
| Utils.GenerateSlugIdempotente | backend/src/utils/index.js:128-135 | generating a slug twice gives the same slug |
| Utils.ToInt32 | backend/src/utils/index.js:239-240 | ECMAScript ToInt32: the integer in [-2^31, 2^31) congruent to the argument modulo 2^32 |
| Utils.PasoEsPor31 | backend/src/utils/index.js:239-240 | `(hash << 5) - hash` is the multiplication by 31 modulo 2^32 |
| Utils.SimpleHash | backend/src/utils/index.js:235-243 | the loop computes the fold `h := ToInt32(31h + code)` over the UTF-16 code units from 0, written in base 36 |
| Utils.HashPropiedades | backend/src/utils/index.js:235-243 | the hash is a 32-bit integer, the empty string gives "0", and a single character hashes to its code |
| Utils.Base36Inyectivo | backend/src/utils/index.js:242 | different hashes are written differently in base 36 |
| Utils.HasRequiredProperties | backend/src/utils/index.js:248-250 | holds exactly when every required property is owned and neither null nor undefined |
| Utils.FilterProperties | backend/src/utils/index.js:255-263 | the `forEach` copies exactly the owned allowed properties: the result is `Filtrado` |
| Utils.FiltradoPropiedades | backend/src/utils/index.js:255-263 | the keys are the allowed keys the object owns, with their values; filtering again changes nothing; required properties that are allowed survive |
| Utils.GroupBy | backend/src/utils/index.js:268-277 | the loop builds the grouping `Agrupar` of the items |
| Utils.AgruparSpec | backend/src/utils/index.js:268-277 | the group names are exactly the items' key values, and each group holds the items of that value in their original order |
| Utils.AgruparCuenta | backend/src/utils/index.js:268-277 | every item lands in exactly one group: the groups' sizes add up to the number of items |
| Utils.CalculateStatsSpec | backend/src/utils/index.js:282-298 | no array gives all zeros; otherwise count is the length, sum the total, min and max the least and greatest element, and count·min ≤ sum ≤ count·max |
| Frontend.BotonesSi | frontend/src/app/app.component.ts:130-144 | Adjudicar is enabled exactly for a 'pendiente' candidate and `adjudicar()` refuses any other; Desistir is disabled exactly for 'desistido' or 'renuncio'; Renunciar is enabled exactly for 'adjudicado' |
| Frontend.EtiquetasSi | frontend/src/app/app.component.ts:1091-1112 | the four known states get distinct labels and badges; 'ausente' falls to 'Desconocido' and 'info' |
| Frontend.OrdenarPorMeritoSpec | frontend/src/app/app.component.ts:723 | the loaded list is a permutation of the answer, ascending by `orden_merito`, a missing rank counted as 0 |
| Frontend.SanearFiltrosSi | frontend/src/app/app.component.ts:834-841 | a filter is forwarded exactly when it is set and `Number` reads it as a number, not NaN |
| Frontend.FiltroModalSpec | frontend/src/app/app.component.ts:987-1001 | the filtered list keeps, in order, exactly the positions where each non-empty filter is a case-insensitive substring of red, group and IPRESS respectively; empty filters keep all |
| Frontend.Reseleccion | frontend/src/app/app.component.ts:1006-1009 | the selection after filtering is kept exactly when a row with its id is still listed, and is otherwise cleared; it is always null or listed |
| Frontend.Componente.Adjudicar | frontend/src/app/app.component.ts:864-909 | a non-pending candidate is refused with its state in the message and nothing changed; a pending one is remembered; the modal opens, unfiltered and without a selection, exactly when the answer has positions; an empty answer shows the "No hay plazas disponibles" message with the group, a failed request "Error al buscar plazas disponibles: " with the error text, and both leave the modal as it was |
| Frontend.Componente.SeleccionarPlaza | frontend/src/app/app.component.ts:972-975 | the selection becomes the position; nothing else changes |
| Frontend.Componente.FiltrarPlazasModal | frontend/src/app/app.component.ts:980-1010 | the filtered list becomes the filter of the free positions, and the selection stays null or inside it |
| Frontend.Componente.LimpiarFiltrosModal | frontend/src/app/app.component.ts:1015-1020 | the filters are cleared and the filtered list equals the free positions |
| Frontend.Componente.ConfirmarAdjudicacion | frontend/src/app/app.component.ts:911-951 | without a candidate and a position it reports an error and builds no request; otherwise it builds the request of their ids and changes nothing |
| Frontend.Componente.CerrarModalAdjudicacion | frontend/src/app/app.component.ts:956-967 | the modal returns to its initial state: hidden, nothing selected, empty lists and filters |
| Pagination.PaginaContenido | backend/src/controllers/PostulanteController.js:40-52 | page `p` of size `l` holds exactly the rows from `(p-1)*l` on, at most `l` of them |
| Pagination.PaginaVacia | backend/src/controllers/PostulanteController.js:40-52 | a page `p >= 1` has rows exactly when `p <= ceil(total/l)` |
| Pagination.PaginasCubren | backend/src/controllers/PostulanteController.js:42-44 | the pages 1..pages are disjoint runs that concatenate to the whole result |
| Pagination.ListarDefectos | backend/src/controllers/PlazaController.js:43-55 | a page number or size that does not parse, or parses to 0, falls back to 1 and 10 |
| Pagination.CeilDivBounds | backend/src/controllers/PostulanteController.js:46-50 | `ceil(n/l)` pages of size `l` hold n rows and one page fewer does not |
| Numeric.PorcentajeRango | backend/src/controllers/PostulanteController.js:324-333 | `total > 0 ? Math.round(parte/total*100) : 0` is between 0 and 100 for a part of a total, and 0 of an empty total |
| Numeric.RoundDivNearest | backend/src/controllers/PlazaController.js:279-289 | the rounded percentage is the integer nearest the exact ratio, halves rounded up, which is the rule `Math.round` applies (to a floating-point value, see "## Left out") |
| Valores.EnteroDeCadena | backend/src/controllers/PostulanteController.js:23-25 | a query-string integer written as `String(n)`, n not 0, is read back unchanged |
| Text.NumberTextRoundTrip | backend/src/controllers/UploadController.js:153 | `Number(String(i)) == i` for every integer, with any whitespace around the text |
| Text.ParseIntRoundTrip | backend/src/controllers/PostulanteController.js:23-25 | `parseInt(String(i)) == i` |
| Text.ParseIntHex | backend/src/controllers/PostulanteController.js:23-24 | `parseInt` without a radix reads `0x2` in base 16, as 2 |
| Text.ParseIntHexSigno | backend/src/controllers/PostulanteController.js:23-24 | the sign precedes the `0X` prefix, and hexadecimal digits may be upper- or lower-case: `' -0X1f'` reads as -31 |
| Text.TrimSpec | backend/src/middleware/common.js:172-184 | `trim` removes whitespace only, from the two ends only, and leaves none there |
| Text.JoinSplit | backend/app.js:46-48 | joining the pieces of `split(',')` with ',' gives back the string |
| Text.ILikeVacio | backend/src/models/GrupoOcupacional.js:121-128 | the empty term gives the pattern `'%%'`, which every name satisfies |
| Text.ILikeLiteral | backend/src/models/Ipress.js:68-70 | for a term with no `%`, `_` or `\`, `ILIKE '%term%'` holds exactly when the lower-cased term occurs in the lower-cased name |
| Text.ILikeUnCaracter | backend/src/models/Ipress.js:68-70 | `_` in the term matches any one character: the term `'_'` matches `'A'`, which does not contain it |
| Text.ILikeTramo | backend/src/models/Ipress.js:68-70 | `%` in the term matches any run of characters: the term `'a%z'` matches `'ABZ'` |

## Left out

- SQL execution, the `pg` pool and transactions: a transaction is all-or-nothing on the in-memory tables; statements are their relational meaning, not text sent to a server.
- The aborted state of a PostgreSQL transaction after a failed statement inside the bulk loop (`backend/src/models/Adjudicacion.js:567-570`): which writes fail is the parameter `rechaza`, and the loop goes on as the code intends.
- Concurrency: two requests racing for the last free seat, and the interleaving of the rate limiter's requests; each call runs alone.
- One id sequence serves every table, where PostgreSQL has one per table; only the freshness of new ids matters to the properties.
- `ORDER BY` on text compares code points (the C collation); the server's locale collation is not modelled.
- The view `plazas_con_disponibilidad`, the view `postulantes_con_estado` and the routines `validar_adjudicacion` and `obtener_plazas_disponibles` are not in the repository's files; they are modelled by the assumption stated above, not from their bodies.
- `getGruposWithAvailablePlazas` and `getIpressWithAvailablePlazas` join a group or IPRESS id with a position id (`backend/src/models/GrupoOcupacional.js:203`, `backend/src/models/Ipress.js:213`); no property is derived from them, so they are not modelled.
- Read-only queries with no rule of their own are not modelled: `getIpressWithRed`, `findByRed`, `getIpressWithStats`, `getIpressStats`, `Ipress.getPlazas`, `getRedesWithStats`, `getRedStats`, `getGruposWithStats`, `getGrupoStats`, `getPlazaWithDetails`, `getPostulantesWithEstado`, `getPostulanteWithEstado`, `getPostulantesPendientes`, `getPostulanteStats`, `GrupoOcupacional.getPlazas`, `Plaza.getAdjudicaciones` and `PlazaController.getPlazasAdvanced`.
- The per-red rows of `getEstadisticasByRed` and the per-group statistics rows are inputs of the dashboards, as the SQL returns them; only the controllers' arithmetic over them is modelled.
- XLSX reading and writing (`backend/src/controllers/UploadController.js:20-36`, `processExcelFile`, `createExcelFile`, `cleanupTempFiles`): a workbook is given as its sheets' rows, each row a map from column name to an optional cell.
- `jsonwebtoken`: token verification is the parameter `verify` of `Auth.Authenticate`; `generateToken` and `verifyToken` only wrap the library and are not modelled.
- `helmet`, `morgan`, `compression`, `multer` and the internals of `express-rate-limit`: only the `retryAfter` of the limiters' handler is modelled.
- Joi schemas are not modelled as code. Where a controller relies on one, the schema is a precondition (`AdjudicacionController.ConsultaValida` for the history's `page` and `limit`); the bulk endpoint's `cantidad` is any integer here, where the schema allows 1 to 100; a value of 0 or below selects no candidate, although PostgreSQL would refuse a negative `LIMIT`.
- AdjudicacionController.UpdateEstadoEfecto, AdjudicacionController.AplicarFila: no table models its `created_at` or `updated_at` column, so the `updated_at = CURRENT_TIMESTAMP` that `BaseModel.update` adds and that every assignment write sets is not modelled; "kept", "unchanged" and "nothing else changes" in these rows and in the `Adjudicaciones` effect rows refer only to the modelled columns.
- Time: `CURRENT_TIMESTAMP`, `new Date()` and `Date.now()` are the parameter `now` where they fill a modelled column; `formatDate` and `daysDifference` work on dates and are not modelled.
- Randomness: `generateUniqueCode` uses `Math.random` and is not modelled.
- Timers: `requestTimeout`, `sleep` and `retry` are not modelled.
- Logging: `logAccess`, `console` output, and the logging and header middleware of the application.
- Floating point: `calculateStats.avg` is not modelled; SQL `ROUND(... * 100.0, 2)` percentages are integers in hundredths; `Math.round` is applied to exact rationals only. The two can differ where the floating-point product falls just below a half: `Math.round(23 / 40 * 100)` is 57, because `23 / 40 * 100` is 57.49999999999999, while `Numeric.RoundDiv` gives 58.
- `Utils.CalculateStatsSpec`: states the integer parts only (count, sum, min, max); numbers are integers, so non-number entries and spreads of huge arrays into `Math.min`/`Math.max` are not modelled.
- `Utils.SimpleHash`: `toString(36)` is modelled for integers only, which is all a 32-bit hash produces.
- Inherited properties: the `for...in` loops of `sanitizeInput` and `filterProperties` see only own keys here, and `groupBy` keys such as `constructor` or `__proto__` behave as ordinary keys.
- `Frontend.NumberDe`: text is read as an integer (blank, or a signed run of decimal digits); hexadecimal, decimal-point and exponent forms and `Infinity`, which `Number` also reads, are NaN here.
- Letter case: `Text.Upper` and `Text.Lower` fold ASCII and Latin-1 letters only (with `ÿ`/`Ÿ` and `µ`), one character to one. Letters beyond Latin-1, such as `ő`, `ł`, Greek or Cyrillic, are left as they are, and `'ß'.toUpperCase()`, which is `'SS'` in JavaScript, stays `'ß'`; this reaches the upper-cased names of the upload, `Utils.NormalizeText`, and every case-insensitive search and filter.
- `Text.ILikeContains`: sees PostgreSQL's case-insensitive matching as `LIKE` on texts lower-cased by `Text.Lower`, not by the server's locale.
- `Text.NumberText`: the same restriction as `Frontend.NumberDe`, for text cells of the spreadsheet; numeric cells keep their exact value.
- `Frontend.OrdenarPorMeritoSpec`: the stability of `Array.prototype.sort` is not stated; candidates of equal rank may come in any order.
- The component's HTTP calls are answers given as parameters; loading flags, the snackbar, `confirm()`, the `setTimeout` reload, and the `desistir`, `renunciar` and `recargarDatos` handlers, which only forward to the API, are not modelled. A position's red, group and IPRESS names are assumed present in the modal filter, where a missing one would make `toLowerCase` throw.
- `BaseController.create` and `update` pass the whole request body to the entity validators (`backend/src/controllers/BaseController.js:79-81`, `121-123`), while the Red, IPRESS and group validators take `(nombre[, redId])`. The validators are modelled with their declared parameters, and the controller model takes their verdict as an input; the mismatch itself is not modelled.
- Routes, `server.js`, the index files, the process signal handlers in `backend/app.js`, `IpressController` and `RedController` only wire things together and are not modelled.
- `asyncHandler` only forwards a rejected promise to the error handler and is not modelled.
- `capitalizeWords`, `isValidEmail` and `safeParseInt` are not part of this model.
