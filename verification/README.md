# Seed-post generator: history log and form state

This project models in Dafny the two pieces of plain sequential logic in a
small React front end. The app fills in seed-product attributes, asks a
generative API for a sales post and an image, and keeps a history of the
results.

1. **The bounded history log** (`App.tsx`). The log lives in memory and
   in one browser storage key, `'agri_content_history'`.
   - An add prepends a record and caps the list at 50.
   - A delete filters out every record with a given id.
   - Every change goes through `saveHistoryToStorage`. It writes the whole
     list. If the write throws and the list is not empty, it retries once
     with the newest record's image removed. If the retry also throws, it
     keeps the full list in memory only.
   - On mount the log is read back from storage.
2. **The seed form's state** (`components/SeedForm.tsx`).
   - The form starts from empty defaults.
   - When no initial values are passed, it restores an autosave from the
     key `'agri_content_form_autosave'`.
   - When a history entry's input arrives as initial values, it syncs from
     it. The three optional fields become `''` when undefined.
   - It edits one field at a time.
   - It can fill in a fixed sample.

Modules:

- `Types` (`types.dfy`) holds the records `SeedInput`, `GeneratedContent`
  and `HistoryItem`, and `Option` for optional fields. It also holds the
  abstract text `Codec` that stands for `JSON.stringify`/`JSON.parse`, and
  `ReadSlot`, which reads a key the way both components do.
- `History` (`history.dfy`) holds pure list operations: prepend-and-cap,
  delete by id, and stripping the newest image.
- `HistoryStore` (`history_store.dfy`) holds the live list and the storage
  slot, the save routine, add, delete, load, and runs of operations.
- `SeedForm` (`seed_form.dfy`) holds the form record and its effects and
  handlers.

Storage is a value: the key's content is an `Option<string>`. Whether a
write is accepted is a boolean parameter for each attempt. The codec is a
pair of function values. Properties that need it to round-trip assume
`Faithful(c)`: decoding an encoding gives the value back, and an encoding
is never the empty string.

After a successful retry the live list is also set to the stripped list
(`App.tsx:92`), so the live and stored lists match whenever a write
succeeds (`SaveKeepsMirror`).

Two more behaviours of the code are modelled as written:

- A failed first write of an empty list changes nothing, not even the
  live list (`App.tsx:82`). So deleting the only record while storage
  refuses writes leaves that record visible (`DeleteOnlyItemRefused`).
- Ids are not unique by construction. Delete removes every match.

The add handler prepends to the list it captured when the form was
submitted, after waiting for the generation service. That is
`AddFromSnapshot`; see "Findings" for what happens when a record is deleted
while a generation runs. `Add` prepends to the current list. It is what the
rest of the model uses, and it coincides with the handler whenever the list
did not change during generation.

## Model

| member | source | states |
|---|---|---|
| Types.OrEmpty | components/SeedForm.tsx:38-40 | `v \|\| ''` on an optional string: the value when defined, otherwise the empty string |
| Types.ReadSlot | App.tsx:38-40 | an absent key or an empty string reads as nothing; otherwise the result is whatever parsing gives, with a parse failure also reading as nothing |
| History.Take | App.tsx:111 | a slice from the start has length `min(n, \|s\|)` and its elements are the first ones of `s`, in order |
| History.Prepend | App.tsx:110-111 | the list handed to save after an add has 1 to 50 records, the new one first, followed by the first 49 of the old list in order |
| History.RemoveId | App.tsx:168 | the filtered list is never longer than the original and no record in it carries the deleted id |
| History.RemoveOnlyAt | App.tsx:168 | when only record `k` carries its id, deleting that id removes exactly record `k` and keeps the rest in order |
| History.RemoveIdMembers | App.tsx:168 | a record survives a delete if and only if it was present and does not carry the deleted id |
| History.RemoveIdAppend | App.tsx:168 | delete distributes over concatenation, so survivors keep their relative order |
| History.RemoveIdLength | App.tsx:168 | the result is shorter by exactly the number of records carrying the id |
| History.RemoveAbsentId | App.tsx:168 | deleting an id no record carries returns an equal list |
| History.RemoveIdIdempotent | App.tsx:168 | deleting the same id twice equals deleting it once |
| History.RemoveUniqueId | App.tsx:168 | when ids are unique, deleting a present id removes exactly that record and shortens the list by one |
| History.StripImage | App.tsx:84-87 | the copied record has no image, and putting the original image back gives the original record |
| History.StripLatestImage | App.tsx:83-88 | the fallback list has the same length, its first record has no image but is otherwise the original first record, and every later record is unchanged |
| History.StripLatestImageOnlyDropsImage | App.tsx:83-88 | the fallback list has the same length, and records 1.. are unchanged. Record 0 keeps id, timestamp, input, post text and image prompt, and has no image. Restoring the image gives back the original |
| History.StripLatestImageIdempotent | App.tsx:83-88 | stripping twice equals stripping once, and a list whose newest record has no image is unchanged |
| HistoryStore.Save | App.tsx:75-100 | the slot is either untouched or holds the encoding of the new live list. A failed first write of an empty list leaves everything unchanged. Otherwise the live list has the new list's length and ids, and records 1.. are unchanged |
| HistoryStore.SaveFirstWriteOk | App.tsx:76-78 | an accepted first write makes the live list the new list, and reloading the slot gives that list |
| HistoryStore.SaveRetryOk | App.tsx:82-92 | a refused first write followed by an accepted retry makes the live list, and what reloads from storage, equal to the new list with only record 0's image cleared |
| HistoryStore.SaveBothRefused | App.tsx:90-97 | two refused writes leave the slot and what it reloads as before, and the live list becomes the full unstripped new list. There is no further fallback |
| HistoryStore.SaveEmptyRefused | App.tsx:79-82 | a refused first write of an empty list changes neither the slot nor the live list |
| HistoryStore.SaveKeepsMirror | App.tsx:75-100 | after any save, either the slot is unchanged or reloading it gives exactly the live list |
| HistoryStore.LoadHistory | App.tsx:36-44 | an absent or empty stored value, or one that does not parse, leaves the history empty; otherwise the history is the decoded list |
| HistoryStore.Mount | App.tsx:35-45 | mounting leaves the slot alone; the live list is what the slot decodes to, or empty when the slot reads as nothing |
| HistoryStore.AddFromSnapshot | App.tsx:102-113 | the handler as written: the new record (its id and input) is first, followed by the first 49 records of the list captured at submit time, 1 to 50 records in all |
| HistoryStore.Add | App.tsx:102-113 | the new record (its id and input) is first, followed by the first 49 records of the current live list, 1 to 50 records in all |
| HistoryStore.Delete | App.tsx:167-170 | the live list never grows, and unless the save was dropped no record carrying the id remains |
| HistoryStore.AddPutsNewestFirst | App.tsx:102-112 | whatever storage does, after an add the new record (id, timestamp, input, text fields) is first, the first 49 old records follow in order, and there are at most 50 |
| HistoryStore.AddToFullDropsOldest | App.tsx:110-111 | adding to a 50-record log keeps 50 records and drops exactly the last (oldest) one |
| HistoryStore.DeleteRemovesEveryMatch | App.tsx:167-170 | a delete that is not dropped leaves no record with the id, and the survivors' ids are those of the filtered list in order |
| HistoryStore.DeleteAbsentId | App.tsx:167-170 | deleting an absent id with the write accepted leaves the live list unchanged |
| HistoryStore.DeleteTwice | App.tsx:167-170 | with writes accepted, deleting an id twice gives the same state as deleting it once |
| HistoryStore.DeleteOnlyItemRefused | App.tsx:79-82 | deleting the only record while the first write is refused leaves both the record and the slot in place |
| HistoryStore.RunKeepsBound | App.tsx:102-113 | any sequence of adds and deletes from a state within the cap keeps both the live list and the reloadable stored list at no more than 50 records |
| HistoryStore.AddKeepsIds | App.tsx:102-112 | whatever storage answers, the ids after an add are the new id followed by the first 49 old ids |
| HistoryStore.AddDropsOnlyImages | App.tsx:75-112 | whatever storage answers, each record after an add is the record of the capped new list at its place, or that record without its image |
| HistoryStore.AddsKeepNewestFifty | App.tsx:110-111 | after any run of adds, whatever storage answered, the live ids are the first 50 of the added ids (newest first) followed by the old ids; this holds from a loaded list over the cap too, once there is at least one add |
| HistoryStore.AddsDropOnlyImages | App.tsx:110-111 | after any run of adds, whatever storage answered, each live record is, at its place, the record of the first 50 of the added records (newest first) followed by the old ones, or that record without its image; from a loaded list over the cap too, once there is at least one add |
| HistoryStore.AddsKeepNewestRecords | App.tsx:110-111 | the same list relation, and hence the live records equal the first 50 of the added records followed by the old ones in every field other than the image |
| HistoryStore.ManyAddsKeepFiftyNewest | App.tsx:110-111 | after 50 or more adds, from any start, the live list is the 50 most recently added records, newest first: each is the added record or the added record without its image, and the ids are exactly theirs |
| HistoryStore.StaleAddRestoresDeleted | App.tsx:115-120 | as written, deleting the only record while its generation runs and then completing the add shows the deleted record again, second after the new one |
| HistoryStore.DeleteThenAddStaysDeleted | App.tsx:167-170 | with the add working on the current list, an id that a delete removed stays absent after a later add of a different id |
| SeedForm.EmptyForm | components/SeedForm.tsx:13-23 | the initial form has every field, optional ones included, set to the empty string |
| SeedForm.Normalise | components/SeedForm.tsx:52-57 | syncing from initial values copies the six required fields and sets each optional one to its value or `''`, so none is undefined |
| SeedForm.SyncInitialValues | components/SeedForm.tsx:50-59 | without initial values the form is untouched; with them every optional field is defined |
| SeedForm.MergeSaved | components/SeedForm.tsx:34-41 | a required field present in the saved object overrides the previous value and an absent one keeps it; each optional field is the saved value or `''` |
| SeedForm.RestoreAutosave | components/SeedForm.tsx:28-47 | restore is skipped when initial values are supplied, and leaves the form as it was when the value is absent, empty or does not parse |
| SeedForm.Mount | components/SeedForm.tsx:13-59 | after either load path all three optional fields are defined strings |
| SeedForm.SetField | components/SeedForm.tsx:71-75 | an edit sets exactly the named field to the new value, every other field is unchanged, and defined optional fields stay defined |
| SeedForm.AsSaved | components/SeedForm.tsx:64 | the autosaved object carries every field of the form with its value, and an undefined optional field is absent |
| SeedForm.Autosave | components/SeedForm.tsx:62-69 | a refused write leaves the older value in the slot; an accepted one reads back, with a faithful codec, as exactly the form's fields |
| SeedForm.SampleForm | components/SeedForm.tsx:82-94 | the sample has every field except the custom image prompt non-empty, and the custom image prompt is `''` |
| SeedForm.NormaliseIdempotent | components/SeedForm.tsx:52-57 | normalising twice equals normalising once, and normalising leaves a form unchanged if and only if its optional fields are all defined |
| SeedForm.MountRestores | components/SeedForm.tsx:13-41 | with no initial values and a readable autosave, every field is the saved value, or `''` when the saved object lacks it |
| SeedForm.MountWithoutAutosave | components/SeedForm.tsx:29-44 | with no initial values and an absent, empty or unparseable autosave, the form stays at its empty defaults |
| SeedForm.MountWithInitialValues | components/SeedForm.tsx:28-58 | with initial values the autosave is never consulted, and the form is their normalisation |
| SeedForm.AutosaveRoundTrip | components/SeedForm.tsx:30-64 | after an accepted autosave, the next mount gives the form back: exactly if its optional fields are defined, and otherwise with the undefined ones as `''`. After a refused one, the next mount shows what the older value gave |
| SeedForm.SetFieldLaws | components/SeedForm.tsx:71-75 | setting a field to its current value changes nothing, and a later edit of a field overrides an earlier one |
| SeedForm.Apply | components/SeedForm.tsx:50-94 | every handler and the sync effect keep the optional fields defined, and passing the same history input object again leaves the form as it is |
| SeedForm.SelectSyncsOnlyOnChange | components/SeedForm.tsx:50-59 | a history selection resets the form to the entry's normalised input only when a new object is passed; passing the same object keeps the edits made since |
| SeedForm.EventsKeepNormalised | components/SeedForm.tsx:50-94 | from a normalised form, any sequence of edits, sample fills and history selections keeps every optional field defined |
| SeedForm.EventsThenRemount | components/SeedForm.tsx:28-94 | after mount and any sequence of edits, sample fills and history selections, an accepted autosave followed by a new mount gives back exactly the current form |

## Left out

- The generation service (`geminiService.ts`, `services/geminiService.ts`) is not modelled. It consists of network calls to a third-party SDK, prompt templates and API-key checks.
- The `GenerationState` record and the display half of `handleFormSubmit` are not modelled. The handler awaits the service and then calls add with the history it captured at submit time. That is `AddFromSnapshot`, with the captured list, the input and the result as parameters. Other interleavings are not modelled; only the add-after-delete race is stated, under "Findings".
- Image regeneration (`App.tsx:130-155`) is not modelled. It changes only the displayed result and never writes history (`App.tsx:147-148`).
- The install-prompt handling (`App.tsx:47-72`) is not modelled. It is browser event plumbing.
- The rendering, the history drawer, the result view and the `SavedPost` type (unused by the logic) are not modelled. They are display only.
- The autosave debounce and the saved-indicator timers (`components/SeedForm.tsx:62-69`) are not modelled; they are timing only. The model keeps the value written and whether storage accepted it (`SeedForm.Autosave`). The autosave write has no error handling, so a refused write leaves the older value in the slot and raises an error in the timer that the model does not represent; the saved indicator is not modelled.
- A storage read that throws is not modelled. Reading the autosave key (`components/SeedForm.tsx:30`) sits outside the error handling, unlike the history read (`App.tsx:37-38`); the model treats every read as returning a value or nothing.
- React's comparison of the initial-values object by reference is modelled only as the `changed` flag of a history selection; which selections pass a new object is left to the caller.
- `Date.now()` is not modelled. The id and the timestamp of a new record are separate parameters, because the code calls the clock twice and the two readings may differ.
- JSON internals are not modelled. Encoding and decoding are an abstract `Codec`. Decoding returns nothing exactly where `JSON.parse` throws.
- Parsed JSON values of the wrong shape are not modelled. A stored history that parses to something other than a list of records is outside the model, and so is an autosave that parses to a non-object or has non-string fields. The code would put such values into state unchecked. Keys in the autosave beyond the nine form fields are ignored, because they play no part in the form.
- Logging through `console` is not modelled, since it has no effect on state.
- A loaded list is not capped at 50, because the code does not cap it either. `RunKeepsBound` therefore assumes that the stored list starts within the cap, since a run of deletes alone leaves an oversized list oversized. The add lemmas need that assumption only for the empty run: one add caps the list.

## Findings

| source | as written | input that shows it | evidently intended | confidence | as-written member | corrected member |
|---|---|---|---|---|---|---|
| App.tsx:102-120 | the add prepends to the history captured when the form was submitted, after waiting for the generation service, while the drawer's delete stays usable during the wait | history `[x]`; submit; delete `x` with the write accepted while generation runs; the result arrives with an id other than `x`'s: the live list (and, on an accepted write, storage) becomes `[new, x]`, so `x` comes back | prepend to the history current when the result arrives, so a deleted record stays deleted | medium, not executed | HistoryStore.AddFromSnapshot, HistoryStore.StaleAddRestoresDeleted | HistoryStore.Add, HistoryStore.DeleteThenAddStaysDeleted |
