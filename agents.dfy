/**
 * Staff accounts (backend/database/models.py, class Agent): the two roles, the
 * permission properties and lookup tables, and the password guard of `save()`.
 */
module Agents {
  import opened Wrappers
  import opened Text
  import Identifiers

  predicate EstAdmin(role: string) {
    role == "admin"
  }

  predicate EstAgent(role: string) {
    role == "agent"
  }

  /** The functional sections of the dashboard. */
  datatype Section = Favoris | Tables | Expeditions | Factures | Incidents | Reclamations | Analytiques

  /** The system operations. */
  datatype SystemTask = GererUtilisateurs | ConfigurerSysteme | VoirLogsSysteme | FaireSauvegarde

  /** `peut_acceder_favoris` ... `peut_voir_analytiques`: every section is open to every role. */
  function PeutAccederSection(role: string, s: Section): bool {
    true
  }

  /** `peut_gerer_utilisateurs` ... `peut_faire_sauvegarde`: `est_admin`. */
  function PeutSysteme(role: string, t: SystemTask): bool {
    EstAdmin(role)
  }

  /** The dictionary of `peut_supprimer`. */
  function PermissionsSuppression(role: string): map<string, bool> {
    map[
      "client" := EstAdmin(role),
      "expedition" := true,
      "facture" := EstAdmin(role),
      "paiement" := EstAdmin(role),
      "incident" := true,
      "reclamation" := true
    ]
  }

  /** `permissions_suppression.get(objet_type, False)`. */
  function PeutSupprimer(role: string, objetType: string): bool {
    var table := PermissionsSuppression(role);
    if objetType in table then table[objetType] else false
  }

  const Imprimables: seq<string> :=
    ["bon_expedition", "facture", "recu", "liste_clients", "liste_chauffeurs", "liste_vehicules", "rapport"]

  const RapportsAutorises: seq<string> :=
    ["expeditions", "factures", "paiements", "incidents", "reclamations", "performance", "analytique"]

  function PeutImprimer(role: string, documentType: string): bool {
    documentType in Imprimables
  }

  function PeutGenererRapport(role: string, rapportType: string): bool {
    rapportType in RapportsAutorises
  }

  /**
   * The deletion table read as a rule: expeditions, incidents and reclamations
   * may be deleted by anyone; clients, invoices and payments only by an admin;
   * nothing else by anyone.
   */
  lemma PeutSupprimerRule(role: string, objetType: string)
    ensures PeutSupprimer(role, objetType) <==>
      objetType in {"expedition", "incident", "reclamation"}
      || (objetType in {"client", "facture", "paiement"} && EstAdmin(role))
  {
  }

  /**
   * The admin holds every permission an agent holds, and the system tasks and the
   * deletion of clients, invoices and payments are exactly what tells them apart.
   */
  lemma AdminDominates(s: Section, t: SystemTask, x: string)
    ensures PeutAccederSection("agent", s) ==> PeutAccederSection("admin", s)
    ensures PeutSysteme("admin", t) && !PeutSysteme("agent", t)
    ensures PeutSupprimer("agent", x) ==> PeutSupprimer("admin", x)
    ensures PeutSupprimer("admin", x) != PeutSupprimer("agent", x) <==> x in {"client", "facture", "paiement"}
    ensures PeutImprimer("agent", x) == PeutImprimer("admin", x)
    ensures PeutGenererRapport("agent", x) == PeutGenererRapport("admin", x)
  {
    PeutSupprimerRule("agent", x);
    PeutSupprimerRule("admin", x);
  }

  /** A role other than the two lower-case choices has no system access and deletes nothing sensitive. */
  lemma UnknownRole(role: string, t: SystemTask)
    requires !EstAdmin(role) && !EstAgent(role)
    ensures !PeutSysteme(role, t) && !PeutSupprimer(role, "client")
  {
  }

  // ---------------------------------------------------------------- save(): the password guard

  /** The fields of an agent row `save()` reads and writes; `None` is Python's `None`. */
  datatype AgentRow = AgentRow(agentId: Option<string>, motDePasse: string)

  /** A value `make_password` has produced (Django's default hasher prefix). */
  predicate IsHashed(p: string) {
    StartsWith(p, "pbkdf2_")
  }

  /** `if not self.agent_id:` assigns the allocator's next `AG` identifier. */
  function WithId(row: AgentRow, keys: seq<string>): (r: AgentRow)
    ensures r.agentId.Some? && r.agentId.value != ""
    ensures r.agentId == WithId(row, keys).agentId
    ensures row.agentId.Some? && row.agentId.value != "" ==> r == row
    ensures row.agentId.None? || row.agentId.value == "" ==>
      Identifiers.Allocate(Identifiers.Agent, keys).Ok?
      && r == row.(agentId := Some(Identifiers.Allocate(Identifiers.Agent, keys).value))
  {
    if row.agentId.Some? && row.agentId.value != "" then row
    else
      var id := Identifiers.Allocate(Identifiers.Agent, keys);
      row.(agentId := Some(id.value))
  }

  /** The first agent saved with an empty id gets `AG0001`. */
  lemma FirstAgentId(row: AgentRow)
    requires row.agentId.None? || row.agentId.value == ""
    ensures WithId(row, []).agentId == Some("AG0001")
  {
    Identifiers.FirstIds();
  }

  /** `if not p.startswith('pbkdf2_'): p = make_password(p)`. */
  function HashIfPlain(p: string, makePassword: string -> string): string {
    if IsHashed(p) then p else makePassword(p)
  }

  function UpdatesPassword(updateFields: Option<seq<string>>): bool {
    "mot_de_passe" in updateFields.GetOr([])
  }

  /**
   * `Agent.save()` as written: the guard tests `self.pk is None` after the id
   * block has filled the key, so only an explicit `update_fields` naming the
   * password leads to hashing.
   */
  function SaveAsWritten(row: AgentRow, keys: seq<string>, updateFields: Option<seq<string>>,
                         makePassword: string -> string): (r: AgentRow)
    ensures r.agentId.Some? && r.agentId.value != ""
    ensures r.agentId == WithId(row, keys).agentId
    ensures !UpdatesPassword(updateFields) ==> r.motDePasse == row.motDePasse
    ensures UpdatesPassword(updateFields) ==> r.motDePasse == HashIfPlain(row.motDePasse, makePassword)
  {
    var withId := WithId(row, keys);
    if withId.agentId.None? || UpdatesPassword(updateFields) then
      withId.(motDePasse := HashIfPlain(withId.motDePasse, makePassword))
    else withId
  }

  /**
   * A new agent created with a clear-text password and saved plainly (as the
   * agent creation view does) keeps the clear text, whatever the hasher.
   */
  lemma NewAgentStoredInClear(keys: seq<string>, makePassword: string -> string)
    ensures SaveAsWritten(AgentRow(Some(""), "secret"), keys, None, makePassword).motDePasse == "secret"
    ensures !IsHashed(SaveAsWritten(AgentRow(Some(""), "secret"), keys, None, makePassword).motDePasse)
  {
  }

  /**
   * `Agent.save()` with the evidently intended guard: hash when the row is being
   * inserted (`adding`) or when the password is among the updated fields.
   */
  function Save(row: AgentRow, adding: bool, keys: seq<string>, updateFields: Option<seq<string>>,
                makePassword: string -> string): (r: AgentRow)
    ensures r.agentId.Some? && r.agentId.value != ""
    ensures r.agentId == WithId(row, keys).agentId
    ensures !adding && !UpdatesPassword(updateFields) ==> r.motDePasse == row.motDePasse
    ensures adding || UpdatesPassword(updateFields) ==> r.motDePasse == HashIfPlain(row.motDePasse, makePassword)
  {
    var withId := WithId(row, keys);
    if adding || UpdatesPassword(updateFields) then
      withId.(motDePasse := HashIfPlain(withId.motDePasse, makePassword))
    else withId
  }

  /**
   * With the intended guard a new agent's password is always stored hashed, and
   * an already hashed one is never hashed twice.
   */
  lemma NewAgentStoredHashed(row: AgentRow, keys: seq<string>, updateFields: Option<seq<string>>,
                             makePassword: string -> string)
    requires forall p :: IsHashed(makePassword(p))
    ensures IsHashed(Save(row, true, keys, updateFields, makePassword).motDePasse)
    ensures IsHashed(row.motDePasse) ==> Save(row, true, keys, updateFields, makePassword).motDePasse == row.motDePasse
  {
  }
}
