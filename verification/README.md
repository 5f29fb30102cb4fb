# Model of the supply-chain and compliance backend

The backend traces the N-tier supply chain of battery products and takes production batches through a
compliance pipeline. This project models its algorithms and state machines in Dafny and proves what they
guarantee.

| module | part of the system |
|---|---|
| `RecursiveQuery`, `Digraph`, `Common` | PostgreSQL's evaluation of recursive queries by working tables; walks and cycles of finite graphs |
| `SupplyEdges`, `GapTraversal`, `TierTraversal`, `CyclePrecheck`, `SupplyTable` | the edge table, the gap and n-tier queries, the cycle pre-check, and the inserts behind the service |
| `Contribution`, `RatioValidation` | the contribution rollup, its rounding, and the validation of ratio sums |
| `Verdicts`, `ExtractionGate`, `Pipeline` | the judges around an arbitrary LLM, the extraction gate, and the agent graph as a transition system |
| `BomTree`, `BomVersions` | the BOM forest (query and in-place linking) and the BOM version machine |
| `FactorySync`, `FieldMerge` | the factory part of the master form, and the merge of extracted fields by confidence |
| `AuditChain`, `ReportApproval` | the audit hash chain with its checker, and the approval line of reports |

Suppliers, parts, BOM versions, factories and batches are natural numbers in place of UUIDs. Ratios and
confidences are reals. Objects whose methods assign fields are classes (`SupplyChainMap`, `TreeNode`,
`VersionStore`, `FactoryStore`, `AuditTrail`, `Report`), and each of their methods is tied to a function or
relation about which the lemmas speak.

## Where the code falls short of what it is for

The model follows the code. Where a property one would expect does not hold, the exact condition under
which it does is proved, beside a concrete failure.

- A change of source is accepted when a supplier declares itself as its own source
  (backend/domains/supplychain/service.py:118-132 has no such test, unlike register_relation). The graph
  stays acyclic exactly on the runs without such a request (`RunsStayAcyclicIff`); after one, the pre-check
  for a supplier that leads there hangs (`SelfDeclarationHangsPrecheck`, `SelfDeclarationIsAccepted`).
- An edge below a supplier not yet placed in the BOM version is labelled 1 and can be missing from the
  n-tier tree (`TreeIsCompleteIff`, `InsertKeepsTreeCompleteIff`, `OrphanIsHidden`).
- Validation accepts no part that one parent buys from two rated edges, so the 20/80 split used as the
  worked example in backend/domains/supplychain/README.md is reported as invalid (`AllValidIff`,
  `SplitIsNeverValid`). A NULL ratio beside a full one passes validation and is counted twice by the rollup
  (`ValidEdgeFactorIff`, `NullShareDoubles`).
- A batch whose product leads to no supplier can be reviewed and approved, but never completes: risk
  scoring raises (`CompletesIff`).
- The top part of a BOM (the one without a parent) is missing from the BOM tree as soon as any part of the
  BOM has a parent (`TopPartShownIff`). A part is shown twice exactly when an anchor hangs below a part that
  is only reached at the depth cap (`EachPartOnceIff`, `ChainIsCut`).
- A single row of a batch without a step number stops every later write of that batch, because the number
  is taken from it (`WriteIsExact`).
- The link check of the audit chain does not see the deletion of the last row, or of an inner row with the
  output hash of its predecessor, nor any change of an input hash (`DeletionPassesIff`, `EditPassesIff`).
- Comments in backend/domains/product/state_machine.py:6 allow deprecated versions to become active; the
  transition table does not, and the model follows the table.

## Model

| member | source | states |
|---|---|---|
| RecursiveQuery.ResultIsStable | backend/domains/supplychain/repository.py:498-525 | once a working table is empty, further rounds of a recursive UNION ALL query add no rows |
| GapTraversal.TableIsSimplePaths | backend/domains/supplychain/repository.py:498-525 | round k of the gap query holds exactly the walks of k arcs from a root that visit no supplier twice |
| GapTraversal.Terminates | backend/domains/supplychain/repository.py:510-525 | the gap query ends on every edge table, cycles and self-edges included |
| GapTraversal.MinDepthsIsMinimum | backend/domains/supplychain/repository.py:526-532 | one depth per supplier of the rows, and it is the least of its rows |
| GapTraversal.ReportIsShortestDistance | backend/domains/supplychain/repository.py:498-545 | the report lists exactly the suppliers reachable from the product's roots, each with its shortest distance; root anchors are exactly those at depth 0 |
| TierTraversal.TableIsTrails | backend/domains/supplychain/repository.py:126-164 | round k of the n-tier query holds exactly the trails of k+1 edges (a root of the product, then edges of the same BOM version one hop further down each) on which only the last edge may bring back a supplier with a part it already had; the row is flagged iff it does |
| TierTraversal.FlaggedIff | backend/domains/supplychain/repository.py:150-154 | a row is flagged as a cycle iff an earlier edge of its trail has the same supplier and the same part |
| TierTraversal.NewRoleIsFollowed | backend/domains/supplychain/repository.py:120-154 | a trail on which no supplier repeats a part is shown unflagged and continued, however often a supplier comes back with another part |
| TierTraversal.DualRoleIsFollowed | backend/domains/supplychain/repository.py:116-154 | a concrete supplier in two roles, shown below itself without a cycle flag |
| TierTraversal.Terminates | backend/domains/supplychain/repository.py:145-164 | the n-tier query ends on every edge table; the distance to the largest hop label is the measure |
| TierTraversal.TreeWithinGapReport | backend/domains/supplychain/repository.py:126-164 | every supplier in the tree is in the gap report of the product, at a depth no greater than in the tree |
| TierTraversal.AcyclicTrailsAreLive | backend/domains/supplychain/repository.py:150-164 | with an acyclic supplier graph no row is cut by the (supplier, part) key test |
| CyclePrecheck.DescendantsAreWalks | backend/domains/supplychain/repository.py:429-439 | round k of the pre-check holds the suppliers at the end of a walk of k+1 arcs below the child |
| CyclePrecheck.PrecheckIsExact | backend/domains/supplychain/repository.py:419-448 | on any table: has_cycle is true iff the child reaches the parent, false iff it does not and no cycle lies below the child; otherwise no answer |
| CyclePrecheck.AnswersInTime | backend/domains/supplychain/repository.py:428-448 | an answer that comes at all comes within one round per supplier plus one, so no answer by then means the query never ends |
| CyclePrecheck.AcyclicAnswers | backend/domains/supplychain/repository.py:419-448 | on an acyclic graph the pre-check always ends with the right answer |
| SupplyTable.SupplyChainMap.RegisterRelation | backend/domains/supplychain/service.py:38-65 | refuses parent = child and cycles, leaving the table as it was; otherwise appends the edge with label 0, one above the parent's least label, or 1 |
| SupplyTable.SupplyChainMap.DeclareSourceChange | backend/domains/supplychain/service.py:118-132 | refuses cycles; otherwise appends the edge one above some edge that leads to the parent, or with 1; no test for parent = child |
| SupplyTable.OutcomeIsExact | backend/domains/supplychain/service.py:38-132 | a request is refused for equal suppliers (registrations only), then for a child that reaches the parent, and never answered for a cycle below the child; otherwise one edge with its columns is appended |
| SupplyTable.LabelIsExact | backend/domains/supplychain/repository.py:252-264 | the label of an insert: 0 for a root, 1 below an unplaced parent, else one above an edge that leads to the parent, for a registration the least such |
| SupplyTable.AnyLabelIsPossible | backend/domains/supplychain/repository.py:290-300 | a declaration may be labelled above any edge that leads to the parent, since nothing orders the subquery |
| SupplyTable.InsertKeepsLabels | backend/domains/supplychain/repository.py:252-264 | an insert keeps: roots have label 0, others at least 1, labels from 2 on have a predecessor one hop above in the BOM version |
| SupplyTable.RunsAreLabelled | backend/domains/supplychain/repository.py:247-300 | these labels hold after every run of requests |
| SupplyTable.InsertKeepsAcyclicIff | backend/domains/supplychain/service.py:48-65 | on an acyclic table every request is answered, and the table stays acyclic iff the request is no self-declaration |
| SupplyTable.RunsStayAcyclicIff | backend/domains/supplychain/service.py:38-132 | over every run the supplier graph is acyclic iff no supplier was declared as its own source |
| SupplyTable.SelfDeclarationHangsPrecheck | backend/domains/supplychain/service.py:118-132 | after a self-declaration the pre-check never answers for a child that leads to that supplier and does not reach the parent |
| SupplyTable.SelfDeclarationIsAccepted | backend/domains/supplychain/service.py:118-132 | a concrete self-declaration that is accepted and leaves the pre-check hanging |
| SupplyTable.TreeIsCompleteIff | backend/domains/supplychain/repository.py:126-164 | on a labelled acyclic table the n-tier query shows every edge of the product iff every edge labelled 1 has a root above it |
| SupplyTable.RunTreeIsCompleteIff | backend/domains/supplychain/repository.py:126-300 | the same after every run without self-declarations, and on every row the depth is the hop label |
| SupplyTable.DepthIsHopLabel | backend/domains/supplychain/repository.py:116-119 | depth equals hop_level on every row of a labelled table |
| SupplyTable.InsertKeepsTreeCompleteIff | backend/domains/supplychain/repository.py:255-263 | an accepted insert keeps a complete tree complete iff it is a root or its parent is already placed in the BOM version |
| SupplyTable.RunsShowEverything | backend/domains/supplychain/repository.py:126-300 | runs that place every parent first and declare nothing of itself end with a complete tree in every product |
| SupplyTable.OrphanIsHidden | backend/domains/supplychain/repository.py:257-263 | a concrete registration below an unplaced supplier whose edge the tree does not show |
| Contribution.RollupFollowsTree | backend/domains/supplychain/repository.py:915-952 | without shares and ratios, the rollup and the n-tier query have the same rows in every round |
| Contribution.TableIsChoices | backend/domains/supplychain/repository.py:915-947 | round k of the rollup holds exactly one kind of row: for each live trail of k+1 edges and each choice of one share per edge (blank where unrated), the last edge with the last share and the product of the chosen percentages over 100, NULL as 1 |
| Contribution.ReportedIff | backend/domains/supplychain/repository.py:951-964 | the report lists a factory share of an edge with a contribution iff some trail without a repeated supplier and part ends there and some choice of shares along it ends in that share, the contribution being the rounded percentage of their product |
| Contribution.OneRowPerShare | backend/domains/supplychain/repository.py:920-943 | an edge forks into one row per share, in order, each with that share's own ratio |
| Contribution.Terminates | backend/domains/supplychain/repository.py:934-952 | the rollup ends on every edge table |
| Contribution.ExpandMass | backend/domains/supplychain/repository.py:937-950 | the child rows of a row carry its cumulative ratio times the sum of their factors; a cut row has none |
| Contribution.MassIsConserved | backend/domains/supplychain/repository.py:915-964 | when the child-row ratios of every expanded row sum to 100, leaf rows and cut rows together carry what the root rows carry |
| Contribution.NothingCut | backend/domains/supplychain/repository.py:943-951 | on an acyclic graph the rows dropped by the cycle test carry nothing |
| Contribution.RoundError | backend/domains/supplychain/repository.py:961-961 | rounding to four places shifts a value by at most 0.00005 |
| Contribution.RoundIsNearest | backend/domains/supplychain/repository.py:961-961 | the reported number has four decimals, none is nearer, and a tie goes away from zero |
| Contribution.ReportSumsToRoots | backend/domains/supplychain/repository.py:952-964 | the reported leaves of an acyclic balanced table sum to 100 times the root ratios, up to 0.00005 per leaf |
| Contribution.MassIsBounded | backend/domains/supplychain/repository.py:915-952 | with child-row sums between lo and hi, the mass that ends lies between the root mass times lo and hi to the power of the largest hop |
| RatioValidation.AllValidIff | backend/domains/supplychain/repository.py:987-1037 | all_valid iff every rated edge sums to between 99.99 and 100.01, both included, and no parent buys one part from two rated edges |
| RatioValidation.TierSumsItsRows | backend/domains/supplychain/repository.py:1009-1024 | the total of a (parent, part) group is the sum over all its supply_ratio rows, over edges and BOM versions alike |
| RatioValidation.SplitIsNeverValid | backend/domains/supplychain/repository.py:1010-1036 | a part split between two rated edges of one parent is never valid |
| RatioValidation.ValidEdgeFactorIff | backend/domains/supplychain/repository.py:922-938 | a rated edge that validates hands on 100 percent within the tolerance iff none of its shares is NULL |
| RatioValidation.FanOfValidRow | backend/domains/supplychain/repository.py:936-950 | in a valid table a row hands on its mass once per child edge, up to 0.01 percent each |
| RatioValidation.ValidTableBoundsRollup | backend/domains/supplychain/repository.py:915-1037 | on chains that do not branch by part, a valid fully rated table ends between 0.9999 and 1.0001 to the power of the largest hop plus one, per root |
| RatioValidation.NullShareDoubles | backend/domains/supplychain/repository.py:922-922 | a concrete valid edge with a NULL share whose rollup is 200 percent |
| Verdicts.JudgeAll | backend/agents/compliance.py:1030-1054 | the judge loop computes the verdict of every applicable regulation and whether any asks for review; a missing verdict raises |
| Verdicts.NoneIsSkipped | backend/agents/compliance.py:1034-1052 | every applicable regulation gets the verdict of its own judge and no other gets one; the loop raises iff some judgement lacks a verdict |
| Verdicts.UncitedIsRejected | backend/agents/compliance.py:519-533 | whatever the LLM answers, a judgement without a cited clause is a rejection that asks for review |
| Verdicts.JudgeDecides | backend/agents/compliance.py:519-855 | over all judges: three regulations pass; a judgement without data, answer or clause is a rejection; a cited answer keeps the LLM's verdict; review is asked for iff there is no support, the LLM asks, or a factory lacks its carbon declaration |
| Verdicts.RegulationsOfDestination | backend/agents/compliance.py:143-175 | which regulations each destination brings, none of them twice, and none at all for unknown destinations |
| Verdicts.PassedIsCited | backend/agents/compliance.py:519-855 | a judgement passes iff its regulation is out of scope or the LLM passed it with a clause on existing data; one without a clause is a rejection under review |
| Verdicts.RollUpAgreesWithMetrics | backend/agents/final_judgment.py:19-52 | the overall verdict is fail iff the violation count is positive or the level critical, conditional iff neither and the warning count is positive |
| Verdicts.RollUpDecides | backend/agents/final_judgment.py:19-32 | fail iff the score is 70 or more or some verdict is a violation or a rejection; conditional iff not fail and the score is 50 or more, there is geo risk, or some verdict is a warning |
| Verdicts.MetricsCount | backend/agents/final_judgment.py:35-52 | each further verdict raises exactly the counter of its kind by one; geo risk and a high level count as one warning each |
| Verdicts.LevelRanges | backend/domains/risk/state_machine.py:4-19 | the four documented score ranges |
| ExtractionGate.Scan | backend/agents/data_gateway.py:536-554 | the gate passes iff every result is confirmed and complete and every confidence is at least 0.85 |
| ExtractionGate.LowestBounds | backend/agents/data_gateway.py:537-543 | the reported confidence is at least t iff t is at most 1 and every confidence of every result is at least t |
| Pipeline.AdvanceKeepsLive | backend/agents/graph.py:164-195 | each live step keeps the run invariant and lowers (stages left, pending review) lexicographically |
| Pipeline.RunsEnd | backend/agents/graph.py:164-240 | every run is over after at most ten node executions; a completed run executed the five agents once each in order with at most four pauses; where a stopped run can stop |
| Pipeline.CompletesIff | backend/agents/graph.py:64-195 | a run completes iff the gateway found a supplier, every review was approved and every judgement had a verdict |
| Pipeline.NoEscalationLost | backend/agents/supervisor.py:23-25 | a reason set by one node is what the very next node, the interrupt, handles; no work node starts with a pending reason |
| Pipeline.PauseIff | backend/agents/supervisor.py:23-41 | the interrupt follows a node iff that node's own inputs call for review (unconfirmed, incomplete or below 0.85 at the gate; geo risk; a judgement without support or under review; escalated risk), and it is given that node's reason |
| Pipeline.FlagMeansEscalation | backend/agents/automation.py:65-70 | hitl_required is set exactly while a geographical or risk escalation is pending, never for low confidence |
| Pipeline.ConfidenceFloor | backend/agents/graph.py:157-163 | every work node after the gate, and the stored final judgment, has the confidence the gate measured, raised to 0.85 where it was lower |
| Pipeline.VerdictsAreDecided | backend/agents/compliance.py:1030-1054 | the compliance visit of a run stores a verdict for exactly the regulations of the destination, each the one the evidence decides |
| Pipeline.FinalFromAnswers | backend/agents/final_judgment.py:19-122 | the stored overall verdict of every run, from the evidence at compliance, the geo audit and the raw risk score alone |
| Pipeline.UncitedNeverPasses | backend/agents/final_judgment.py:19-117 | a compliance visit that used an uncited answer is followed by the interrupt, and a later final judgment is fail whatever geo audit and risk say |
| BomTree.TableRow | backend/domains/product/repository.py:531-582 | a row of round k has depth k, at most 5, its true parent, a row of its parent one round before, and a quantity only in round 0 |
| BomTree.Terminates | backend/domains/product/repository.py:560-582 | the part query ends at the depth cap on every part table, self-references included |
| BomTree.SurvivorIsDeepest | backend/domains/product/repository.py:585-635 | of several rows of a part, one of the deepest stays in the node map |
| BomTree.TreeNode.constructor | backend/domains/product/repository.py:618-634 | a node dict starts with its row and no children |
| BomTree.BuildNodes | backend/domains/product/repository.py:615-635 | one node per part, in first-seen order, holding its last row |
| BomTree.LinkChildren | backend/domains/product/repository.py:638-641 | every node's children list becomes the nodes whose parent it is, in dict order |
| BomTree.CollectRoots | backend/domains/product/repository.py:667-670 | the roots are the nodes at depth 0, in dict order |
| BomTree.Assemble | backend/domains/product/repository.py:615-670 | the assembled heap structure is exactly the forest described by Children and Roots |
| BomTree.CountInForest | backend/domains/product/repository.py:638-670 | a part is listed once for being a root and once for every listing of its parent |
| BomTree.NothingLost | backend/domains/product/repository.py:615-670 | every part of the query result is in the nested result |
| BomTree.EachPartOnceIff | backend/domains/product/repository.py:531-670 | every part is listed exactly once iff no anchor hangs below a part that is reached at the depth cap only |
| BomTree.TreeIsExact | backend/domains/product/repository.py:531-670 | the tree shows exactly the parts ending a chain of at most six parts from a starting part (a BOM part whose parent is no BOM part with a parent), at the depth of the longest such chain, under the true parent, with a quantity of their own |
| BomTree.ChainIsCut | backend/domains/product/repository.py:550-581 | a concrete part table on which that condition fails |
| BomTree.TopPartShownIff | backend/domains/product/repository.py:550-557 | a BOM part without a parent is in the result iff no part of the BOM has a parent |
| BomTree.QuantityOnRootsOnly | backend/domains/product/repository.py:542-575 | a shown quantity survives exactly on the roots |
| BomTree.RootsExist | backend/domains/product/repository.py:667-672 | a non-empty result always has a root |
| BomVersions.VersionStore.ActivateVersion | backend/domains/product/state_machine.py:81-133 | refuses unknown versions and forbidden transitions; otherwise deprecates the product's other active versions and activates this one |
| BomVersions.VersionStore.DeprecateVersion | backend/domains/product/state_machine.py:141-178 | refuses unknown versions and forbidden transitions; otherwise deprecates this version only |
| BomVersions.CommandIsExact | backend/domains/product/state_machine.py:52-178 | which commands are refused, and the status of every version after the others |
| BomVersions.RunsKeepOneActive | backend/domains/product/state_machine.py:104-133 | every run keeps at most one active version in a product that starts with at most one |
| BomVersions.ActivationRepairs | backend/domains/product/state_machine.py:116-133 | from any table, once an activation in a product succeeded the product has at most one active version ever after |
| BomVersions.RunsAreOneWay | backend/domains/product/models.py:1090-1100 | deprecated is final, draft is never re-entered, and versions of products no command names stay as they are |
| FactorySync.Upsert | backend/domains/supplier/repository.py:485-530 | no row disappears during the upsert, ids are only handed out upwards, and one id is returned per entry |
| FactorySync.FactoryStore.UpsertFactories | backend/domains/supplier/repository.py:477-530 | updates the supplier's own factories and inserts the others, in form order |
| FactorySync.FactoryStore.RemoveStale | backend/domains/supplier/repository.py:532-546 | deletes every stale factory no foreign key refers to, with its declarations, and deactivates the others |
| FactorySync.FactoryStore.WriteFactories | backend/domains/supplier/repository.py:457-548 | the two loops together are Sync |
| FactorySync.NewIdsDiffer | backend/domains/supplier/repository.py:519-530 | two entries share an id only when both name a factory the supplier owns |
| FactorySync.SyncIsExact | backend/domains/supplier/repository.py:457-548 | ids line up with the form; the supplier keeps exactly the returned factories, active as before or new and active, and the referenced ones left out, now inactive; nothing referenced and nothing of other suppliers is lost; a row holds what the form says last about it |
| FactorySync.ResubmissionIsIdempotent | backend/domains/supplier/repository.py:464-472 | submitting again with the returned ids changes nothing and returns the same ids |
| FactorySync.WriteDeclarations | backend/domains/supplier/repository.py:587-605 | declarations of the form's factories are replaced by those the form attaches, the rest stay in order |
| FactorySync.AttachedIff | backend/domains/supplier/repository.py:433-437 | a declaration is attached iff the form points at its factory by an index in range; others are dropped |
| FactorySync.SubmissionKeepsDeclarationsSound | backend/domains/supplier/repository.py:532-605 | after a submission no declaration points at a missing factory, the form's factories carry exactly the form's declarations, and other factories keep theirs |
| FieldMerge.MergeForPrefill | backend/domains/supplier/service.py:231-247 | the prefill loop merges the fields of all documents and counts the unconfirmed ones |
| FieldMerge.MergeForIntegrity | backend/agents/data_gateway.py:641-655 | the integrity loop merges the fields of the confirmed documents |
| FieldMerge.LoopsAgree | backend/agents/data_gateway.py:641-655 | on confirmed documents both loops end with the same dicts |
| FieldMerge.MergeIsFirstBest | backend/domains/supplier/service.py:234-245 | each key of the merge keeps the value of the first document with the greatest confidence, and that confidence |
| FieldMerge.NoNumberCountsAsZero | backend/domains/supplier/service.py:238-245 | a confidence that is absent or unreadable counts as 0 against the numbers of the other documents |
| FieldMerge.MergedKeys | backend/domains/supplier/service.py:234-245 | the merge holds exactly the keys of the documents |
| FieldMerge.BestConfidenceIgnoresOrder | backend/domains/supplier/service.py:234-245 | the kept confidence of a key depends only on which documents there are |
| FieldMerge.ToPrefill | backend/domains/supplier/masterform_prefill.py:121-145 | the form and the low-confidence list are Form and Doubts of the catalog |
| FieldMerge.FormIsExact | backend/domains/supplier/masterform_prefill.py:121-127 | a catalog field is in the form iff it was extracted and could be coerced, with its section and coerced value |
| FieldMerge.DoubtfulIff | backend/domains/supplier/masterform_prefill.py:129-143 | a field is listed as low-confidence iff it is in the form and every document has it below 0.85 |
| AuditChain.AuditTrail.Write | backend/infrastructure/trace.py:104-162 | appends what Appends allows, and nothing without a batch; WriteIsExact says what that is |
| AuditChain.WriteIsExact | backend/infrastructure/trace.py:125-162 | on any table: number 1 and no previous hash for the first row of a batch; else one more than the greatest number of the batch and the output hash of such a row; nothing at all when a row of the batch has no number |
| AuditChain.VerifyChain | backend/domains/audit/service.py:182-246 | reports the bad links and step warnings in order; valid iff every row is linked to the one before; unknown batches are refused |
| AuditChain.ValidIff | backend/domains/audit/service.py:209-228 | no breaks iff every link is good, and the number of breaks is the number of bad links |
| AuditChain.HistoriesVerify | backend/infrastructure/trace.py:125-162 | after any interleaving of writes each batch has steps 1..n and verifies without break or warning |
| AuditChain.HistoryIsExact | backend/infrastructure/trace.py:104-162 | after any interleaving of writes, row k holds call k: its number counts the earlier calls of the same batch, its previous hash is the output of the last of them, none for the first |
| AuditChain.DeletionPassesIff | backend/domains/audit/service.py:209-228 | deleting a row passes the link check iff it is the last or an inner row with its predecessor's output hash |
| AuditChain.DeletionIsSeen | backend/domains/audit/service.py:209-239 | deleting any row before the last leaves a break or a warning |
| AuditChain.EditPassesIff | backend/domains/audit/service.py:209-228 | rewriting a row passes the link check iff its previous hash is kept and, unless it is the last, its output hash |
| ReportApproval.CreateReport | backend/domains/report/service.py:144-195 | an empty approval line is refused; otherwise a draft at step 1 with one pending step per approver |
| ReportApproval.Report.SubmitReport | backend/domains/report/state_machine.py:10-17 | only a draft can be submitted |
| ReportApproval.Report.ApproveStep | backend/domains/report/service.py:221-244 | only the approver of the current step of a pending report approves it; the last approval completes the report |
| ReportApproval.Report.RejectStep | backend/domains/report/service.py:261-276 | only the approver of the current step of a pending report rejects it, which returns the report |
| ReportApproval.ActionKeepsOrder | backend/domains/report/state_machine.py:20-71 | every action keeps the line in order and raises the number of decided steps by one exactly when it is a successful decision, made by the approver whose turn it is |
| ReportApproval.TurnDecides | backend/domains/report/service.py:221-276 | a decision succeeds iff the report is pending and the actor is the approver of the current step |
| ReportApproval.ApprovalInTurnSucceeds | backend/domains/report/state_machine.py:10-45 | submitting and approving in turn never fails and ends in a fully approved report |
| ReportApproval.RunsStayInOrder | backend/domains/report/service.py:144-276 | over every run the deciders, in order, are exactly a first part of the approver list, so there are at most as many decisions as approvers |
| ReportApproval.StatusMeansSteps | backend/domains/report/state_machine.py:40-71 | fully approved iff every step is approved; returned iff some step, then the current one, is rejected |
| ReportApproval.EndIsFinal | backend/domains/report/state_machine.py:12-63 | a fully approved or returned report accepts no further action |

## Left out

- HTTP routers, authentication, mail, storage, queues, events, notifications and the LLM calls themselves: their answers are arbitrary inputs of the model.
- SHA-256 and JSON serialisation of the audit hashes: hashes are opaque texts, and no result assumes that they differ.
- Edges with a NULL child or a NULL part: the gap and tier queries drop the former by an inner join, and a NULL key makes the cycle test NULL.
- The joins with active factories in the n-tier query, which repeat rows per factory, and the name, geometry and data-presence columns of the traversals.
- Filters by tenant; a product is given by the set of its BOM versions.
- EXISTS over the pre-check is read as PostgreSQL evaluates it, taking rows as they are produced; an evaluation that first collects all rows would also hang when the parent is found above a cycle.
- The router writes applicable_regulations into the state it is given; the model lets that state go on, which assumes the graph library keeps the mutation. Checkpoints, resumption without a checkpoint and the number of review rows per pause are not modelled.
- Pipeline.RunsEnd: does not model database or network errors inside nodes; a node raises only where its own code does.
- Uploading, parsing and promoting documents, including the field-list reconciliation after parsing; the schema check of the gate is one flag per document.
- The embedding search, the texts of verdicts, the metrics of the executive summary beyond the three counters, and the risk scoring rules: whether the risk escalates is arbitrary.
- Dicts and ORM rows that are edited in place inside one function (a judge's result, a BOM version row) are values here; aliasing between them is not captured.
- The synthetic product node above several BOM roots, and the descriptive columns of parts.
- Comparing confirmed values with the merged document values (numeric or text) after the integrity merge.
- FieldMerge.ToPrefill: takes the catalog and the type coercion as inputs instead of modelling the regular expression that finds a number.
- Columns of factories other than their owner and active flag are one text; reactivation of an inactive factory is not claimed, because the update never sets the flag.
- AuditChain.EditPassesIff: does not model the re-sorting that a changed step number would cause, because it speaks of a row rewritten at its place in the listing.
- Concurrent writers of any table.
