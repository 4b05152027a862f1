/** mockgcp/mockbigquery/tables.go: clearing empty policy tags throughout nested table schemas. */
module TableSchemas {
  import opened Wrappers

  datatype Field = Field(name: string, fieldType: string, policyTags: Option<seq<string>>, fields: seq<Field>)
  type Schema = Option<seq<Field>>

  predicate EmptyTags(f: Field) { f.policyTags == Some([]) }

  function NormalizeField(f: Field): Field
    decreases f, 1
  {
    f.(policyTags := if EmptyTags(f) then None else f.policyTags, fields := NormalizeFields(f.fields))
  }

  function NormalizeFields(fs: seq<Field>): seq<Field>
    decreases fs, 0
  {
    if fs == [] then [] else [NormalizeField(fs[0])] + NormalizeFields(fs[1..])
  }

  function NormalizeSchema(schema: Schema): Schema {
    if schema.Some? then Some(NormalizeFields(schema.value)) else None
  }

  /** A position in the tree of fields: the index to take at each level. */
  type Position = seq<nat>

  ghost function At(fs: seq<Field>, p: Position): Option<Field>
    decreases p
  {
    if p == [] || p[0] >= |fs| then None
    else if |p| == 1 then Some(fs[p[0]])
    else At(fs[p[0]].fields, p[1..])
  }

  /** No field anywhere in the tree carries an empty tag list. */
  ghost predicate Normal(fs: seq<Field>) {
    forall p :: At(fs, p).Some? ==> At(fs, p).value.policyTags != Some([])
  }

  ghost predicate NormalSchema(schema: Schema) { schema.Some? ==> Normal(schema.value) }

  lemma {:induction false} NormalizeFieldsAt(fs: seq<Field>, i: nat)
    requires i < |fs|
    ensures |NormalizeFields(fs)| == |fs| && NormalizeFields(fs)[i] == NormalizeField(fs[i])
  {
    if i > 0 {
      NormalizeFieldsAt(fs[1..], i - 1);
    } else if |fs| > 1 {
      NormalizeFieldsAt(fs[1..], 0);
    }
  }

  /** At every position the same field, with the same name and type, and its tags unless they are an
      empty list: nothing else is altered, at any depth. */
  lemma {:induction false} NormalizeAltersOnlyEmptyTags(fs: seq<Field>, p: Position)
    ensures At(NormalizeFields(fs), p).Some? <==> At(fs, p).Some?
    ensures At(fs, p).Some? ==>
              var before, after := At(fs, p).value, At(NormalizeFields(fs), p).value;
              && after.name == before.name && after.fieldType == before.fieldType && |after.fields| == |before.fields|
              && after.policyTags == if before.policyTags == Some([]) then None else before.policyTags
    decreases p
  {
    if p != [] {
      if fs != [] {
        NormalizeFieldsAt(fs, if p[0] < |fs| then p[0] else 0);
      }
      if p[0] < |fs| {
        var f := fs[p[0]];
        if f.fields != [] {
          NormalizeFieldsAt(f.fields, 0);
        }
        if |p| > 1 {
          NormalizeAltersOnlyEmptyTags(f.fields, p[1..]);
        }
      }
    }
  }

  /** A schema stays absent or present, and altered only there. */
  lemma NormalizeSchemaAlters(schema: Schema, p: Position)
    ensures NormalizeSchema(schema).Some? <==> schema.Some?
    ensures schema.Some? ==>
              var before, after := At(schema.value, p), At(NormalizeSchema(schema).value, p);
              && (after.Some? <==> before.Some?)
              && (before.Some? ==>
                    && after.value.name == before.value.name && after.value.fieldType == before.value.fieldType
                    && |after.value.fields| == |before.value.fields|
                    && after.value.policyTags == if before.value.policyTags == Some([]) then None else before.value.policyTags)
  {
    if schema.Some? {
      NormalizeAltersOnlyEmptyTags(schema.value, p);
    }
  }

  lemma NormalizedIsNormal(fs: seq<Field>)
    ensures Normal(NormalizeFields(fs))
  {
    forall p | At(NormalizeFields(fs), p).Some? ensures !EmptyTags(At(NormalizeFields(fs), p).value) {
      NormalizeAltersOnlyEmptyTags(fs, p);
    }
  }

  lemma NormalHead(fs: seq<Field>)
    requires fs != [] && Normal(fs)
    ensures !EmptyTags(fs[0]) && Normal(fs[0].fields) && Normal(fs[1..])
  {
    assert At(fs, [0]) == Some(fs[0]);
    forall p | At(fs[0].fields, p).Some? ensures !EmptyTags(At(fs[0].fields, p).value) {
      assert ([0] + p)[1..] == p;
      assert At(fs, [0] + p) == At(fs[0].fields, p);
    }
    forall p | At(fs[1..], p).Some? ensures !EmptyTags(At(fs[1..], p).value) {
      var q := [p[0] + 1] + p[1..];
      assert q[1..] == p[1..];
      assert At(fs, q) == At(fs[1..], p);
    }
  }

  /** Normalizing is a no-op exactly on schemas in normal form. */
  lemma {:induction false} NormalizeFixesNormal(fs: seq<Field>)
    requires Normal(fs)
    ensures NormalizeFields(fs) == fs
    decreases fs
  {
    if fs != [] {
      NormalHead(fs);
      NormalizeFixesNormal(fs[0].fields);
      NormalizeFixesNormal(fs[1..]);
      assert fs == [fs[0]] + fs[1..];
    }
  }

  lemma NormalizeNoOpIff(schema: Schema)
    ensures NormalizeSchema(schema) == schema <==> NormalSchema(schema)
    ensures NormalizeSchema(NormalizeSchema(schema)) == NormalizeSchema(schema)
  {
    if schema.Some? {
      NormalizedIsNormal(schema.value);
      NormalizeFixesNormal(NormalizeFields(schema.value));
      if Normal(schema.value) {
        NormalizeFixesNormal(schema.value);
      }
    }
  }

  // ---------------------------------------------------------------- in place, on the tree of messages

  /** A field message; normalization changes its tags and follows its sub-fields. */
  class FieldNode {
    const name: string
    const fieldType: string
    const fields: seq<FieldNode>
    var policyTags: Option<seq<string>>
    ghost const Repr: set<FieldNode>

    /** The messages below form a tree: no sub-field is shared. */
    ghost predicate Valid()
      decreases Repr
    {
      && this in Repr
      && (forall i :: 0 <= i < |fields| ==> fields[i].Repr <= Repr && this !in fields[i].Repr && fields[i].Valid())
      && (forall i, j :: 0 <= i < j < |fields| ==> fields[i].Repr !! fields[j].Repr)
    }

    ghost function Value(): Field
      requires Valid()
      reads Repr
      decreases Repr, 1
    {
      Field(name, fieldType, policyTags, Values(fields, Repr))
    }

    constructor (name: string, fieldType: string, policyTags: Option<seq<string>>, fields: seq<FieldNode>)
      requires forall i :: 0 <= i < |fields| ==> fields[i].Valid()
      requires forall i, j :: 0 <= i < j < |fields| ==> fields[i].Repr !! fields[j].Repr
      ensures Valid() && this.fields == fields && this.policyTags == policyTags && this.name == name && this.fieldType == fieldType
    {
      this.name, this.fieldType, this.policyTags, this.fields := name, fieldType, policyTags, fields;
      this.Repr := {this} + set i, n | 0 <= i < |fields| && n in fields[i].Repr :: n;
    }
  }

  ghost function Values(nodes: seq<FieldNode>, bound: set<FieldNode>): (r: seq<Field>)
    requires forall i :: 0 <= i < |nodes| ==> nodes[i].Valid() && nodes[i].Repr < bound
    reads bound
    ensures |r| == |nodes| && forall i :: 0 <= i < |nodes| ==> r[i] == nodes[i].Value()
    decreases bound, 0, |nodes|
  {
    if nodes == [] then [] else [nodes[0].Value()] + Values(nodes[1..], bound)
  }

  lemma NormalizeFieldsPointwise(before: seq<Field>, after: seq<Field>)
    requires |after| == |before| && forall i :: 0 <= i < |before| ==> after[i] == NormalizeField(before[i])
    ensures after == NormalizeFields(before)
  {
    if before != [] {
      NormalizeFieldsAt(before, 0);
    }
    forall i | 0 <= i < |before| ensures after[i] == NormalizeFields(before)[i] {
      NormalizeFieldsAt(before, i);
    }
  }

  /** The recursive walk that clears tags in place does what normalizing the value does. */
  method NormalizeTableField(field: FieldNode)
    requires field.Valid()
    modifies field.Repr
    ensures field.Value() == NormalizeField(old(field.Value()))
    decreases field.Repr
  {
    ghost var before := Values(field.fields, field.Repr);
    if field.policyTags.Some? && |field.policyTags.value| == 0 {
      field.policyTags := None;
    }
    ghost var tags := field.policyTags;
    for i := 0 to |field.fields|
      invariant field.policyTags == tags
      invariant forall j :: 0 <= j < i ==> field.fields[j].Value() == NormalizeField(before[j])
      invariant forall j :: i <= j < |field.fields| ==> field.fields[j].Value() == before[j]
    {
      NormalizeTableField(field.fields[i]);
    }
    NormalizeFieldsPointwise(before, Values(field.fields, field.Repr));
  }

  // ---------------------------------------------------------------- the handlers

  datatype Partitioning = Partitioning(requirePartitionFilter: Option<bool>, column: string)

  /** A table. `rest` is everything the handlers below never look at or replace. */
  datatype Table = Table(friendlyName: Option<string>, description: Option<string>, schema: Schema, external: Option<string>,
                         requirePartitionFilter: Option<bool>, timePartitioning: Option<Partitioning>,
                         expirationTime: Option<int>, labels: map<string, string>, constraints: Option<string>,
                         view: Option<string>, rest: string)
  type Store = map<string, Table>

  /** Requests. `inferred` is the schema read off a view or off external data, and `datasetFound` is
      whether the dataset exists: both are inputs here. */
  datatype Request = Insert(name: string, table: Table, inferred: Schema, datasetFound: bool)
                   | Patch(name: string, table: Table)
                   | Update(name: string, table: Table, inferred: Schema)
                   | Delete(name: string)
                   | Get(name: string)

  datatype Reply = Ok(table: Table) | NoDataset | NotFound | Taken

  function Normalized(t: Table): Table { t.(schema := NormalizeSchema(t.schema)) }

  function Inferred(schema: Schema, inferred: Schema): Schema { if inferred.Some? then inferred else schema }

  /** The table an insert puts together, before the two places where reply and stored copy part. */
  function Prepared(t: Table, inferred: Schema): Table {
    Normalized(t.(schema := Inferred(t.schema, inferred),
                  requirePartitionFilter := if t.external.Some? && t.requirePartitionFilter.None? then Some(false)
                                            else t.requirePartitionFilter))
  }

  /** The stored copy repeats the filter setting inside the time partitioning. */
  function FilterRepeated(t: Table): Table {
    if t.requirePartitionFilter.Some? && t.timePartitioning.Some?
    then t.(timePartitioning := Some(t.timePartitioning.value.(requirePartitionFilter := t.requirePartitionFilter)))
    else t
  }

  /** The reply to an insert, and no other reply, has an empty schema where there is none. */
  function SchemaShown(t: Table): Table { if t.schema.None? then t.(schema := Some([])) else t }

  function Patched(existing: Table, t: Table): Table {
    Normalized(existing.(friendlyName := t.friendlyName, description := t.description, schema := t.schema,
                         requirePartitionFilter := FilterAfter(existing, t)))
  }

  predicate IsTrue(b: Option<bool>) { b == Some(true) }

  /** The filter setting of external tables is always overwritten, by false if the request has none. */
  function FilterAfter(existing: Table, t: Table): Option<bool> {
    if existing.external.None? then existing.requirePartitionFilter
    else Some(IsTrue(t.requirePartitionFilter))
  }

  function Replaced(existing: Table, t: Table, inferred: Schema): Table {
    Patched(existing, t.(schema := Inferred(t.schema, inferred)))
    .(external := if existing.external.None? then None else t.external,
      expirationTime := t.expirationTime, labels := t.labels, constraints := t.constraints, view := t.view)
  }

  function Step(store: Store, r: Request): Store {
    match r
    case Insert(name, t, inferred, datasetFound) =>
      if !datasetFound || name in store then store else store[name := FilterRepeated(Prepared(t, inferred))]
    case Patch(name, t) =>
      if name in store then store[name := Patched(store[name], t)] else store
    case Update(name, t, inferred) =>
      if name in store then store[name := Replaced(store[name], t, inferred)] else store
    case Delete(name) => store - {name}
    case Get(_) => store
  }

  /** What `GetTable` returns. */
  function Fetched(store: Store, name: string): Option<Table> {
    if name in store then Some(Normalized(store[name])) else None
  }

  function After(store: Store, run: seq<Request>): Store
    decreases run
  {
    if run == [] then store else After(Step(store, run[0]), run[1..])
  }

  ghost predicate AllNormal(store: Store) {
    forall k :: k in store ==> NormalSchema(store[k].schema)
  }

  lemma NormalizedSchemaIsNormal(t: Table)
    ensures NormalSchema(Normalized(t).schema)
  {
    if t.schema.Some? {
      NormalizedIsNormal(t.schema.value);
    }
  }

  lemma StepIsNormal(store: Store, r: Request, k: string)
    requires AllNormal(store) && k in Step(store, r)
    ensures NormalSchema(Step(store, r)[k].schema)
  {
    hide NormalSchema, NormalizeSchema;
    if k !in store || Step(store, r)[k] != store[k] {
      var t: Table :| Step(store, r)[k].schema == Normalized(t).schema;
      NormalizedSchemaIsNormal(t);
    }
  }

  /** In every run every stored schema is in normal form, so reading never changes what was stored. */
  lemma {:induction false} ReachableIsNormal(store: Store, run: seq<Request>, name: string)
    requires AllNormal(store)
    ensures AllNormal(After(store, run))
    ensures name in After(store, run) ==> Fetched(After(store, run), name) == Some(After(store, run)[name])
    decreases run
  {
    if run == [] {
      if name in store {
        NormalizeNoOpIff(store[name].schema);
      }
    } else {
      var next := Step(store, run[0]);
      forall k | k in next ensures NormalSchema(next[k].schema) {
        StepIsNormal(store, run[0], k);
      }
      ReachableIsNormal(next, run[1..], name);
    }
  }

  /** The filter setting is repeated without effect. */
  ghost predicate FilterAgrees(t: Table) {
    t.requirePartitionFilter.Some? && t.timePartitioning.Some? ==>
      t.timePartitioning.value.requirePartitionFilter == t.requirePartitionFilter
  }

  /** An insert replies with the very table that is read back exactly when a schema was sent or
      inferred and the two filter settings already agreed. */
  lemma InsertReplyIsReadBackIff(store: Store, name: string, t: Table, inferred: Schema)
    requires name !in store
    ensures Fetched(Step(store, Insert(name, t, inferred, true)), name) == Some(SchemaShown(Prepared(t, inferred))) <==>
            (t.schema.Some? || inferred.Some?) &&
            FilterAgrees(t.(requirePartitionFilter := Prepared(t, inferred).requirePartitionFilter))
  {
    var made := Prepared(t, inferred);
    NormalizeNoOpIff(Inferred(t.schema, inferred));
    assert Normalized(FilterRepeated(made)) == FilterRepeated(made);
    hide NormalizeSchema;
    if made.requirePartitionFilter.Some? && made.timePartitioning.Some? {
      assert FilterRepeated(made).timePartitioning.value.requirePartitionFilter == made.requirePartitionFilter;
    }
  }

  class TablesServer {
    var storage: Store

    constructor ()
      ensures storage == map[] && AllNormal(storage)
    {
      storage := map[];
    }

    method InsertTable(name: string, table: Table, inferred: Schema, datasetFound: bool) returns (reply: Reply)
      modifies this
      ensures storage == Step(old(storage), Insert(name, table, inferred, datasetFound))
      ensures reply == if !datasetFound then NoDataset
                       else if name in old(storage) then Taken
                       else Ok(SchemaShown(Prepared(table, inferred)))
      // what is replied: the request, with the schema normalized or shown empty and an absent filter of
      // an external table false
      ensures reply.Ok? ==>
                && reply.table == table.(schema := reply.table.schema, requirePartitionFilter := reply.table.requirePartitionFilter)
                && reply.table.requirePartitionFilter ==
                   (if table.external != None && table.requirePartitionFilter == None then Some(false) else table.requirePartitionFilter)
                && var schema := NormalizeSchema(if inferred == None then table.schema else inferred);
                   reply.table.schema == if schema == None then Some([]) else schema
      // what is stored: that, but for a schema shown empty, and with the filter repeated in the partitioning
      ensures reply.Ok? ==>
                && name !in old(storage) && storage == old(storage)[name := storage[name]]
                && storage[name].timePartitioning ==
                   if reply.table.requirePartitionFilter == None || table.timePartitioning == None then table.timePartitioning
                   else Some(Partitioning(reply.table.requirePartitionFilter, table.timePartitioning.value.column))
      ensures reply.Ok? ==>
                && storage[name].(schema := None, timePartitioning := None) == reply.table.(schema := None, timePartitioning := None)
                && (storage[name].schema == reply.table.schema || (storage[name].schema == None && reply.table.schema == Some([])))
                && NormalSchema(storage[name].schema)
    {
      if !datasetFound {
        return NoDataset;
      }
      var obj := table;
      if obj.external.Some? && obj.requirePartitionFilter.None? {
        obj := obj.(requirePartitionFilter := Some(false));
      }
      if inferred.Some? {
        obj := obj.(schema := inferred);
      }
      NormalizedSchemaIsNormal(obj);
      obj := Normalized(obj);
      assert obj == Prepared(table, inferred);
      hide NormalizeSchema, NormalSchema;
      var ret := obj;
      if obj.requirePartitionFilter.Some? && obj.timePartitioning.Some? {
        obj := obj.(timePartitioning := Some(obj.timePartitioning.value.(requirePartitionFilter := obj.requirePartitionFilter)));
      }
      if name in storage {
        return Taken;
      }
      storage := storage[name := obj];
      if ret.schema.None? {
        ret := ret.(schema := Some([]));
      }
      reply := Ok(ret);
    }

    method PatchTable(name: string, table: Table) returns (reply: Reply)
      modifies this
      ensures storage == Step(old(storage), Patch(name, table))
      ensures reply == if name in old(storage) then Ok(storage[name]) else NotFound
      ensures reply.Ok? ==>
                var was := old(storage)[name];
                && name in storage && storage - {name} == old(storage) - {name}
                && reply.table.friendlyName == table.friendlyName && reply.table.description == table.description
                && reply.table.schema == NormalizeSchema(table.schema)
                && reply.table.requirePartitionFilter == (if was.external == None then was.requirePartitionFilter
                                                          else if table.requirePartitionFilter == Some(true) then Some(true)
                                                          else Some(false))
                // everything else is kept
                && reply.table == was.(friendlyName := reply.table.friendlyName, description := reply.table.description,
                                       schema := reply.table.schema, requirePartitionFilter := reply.table.requirePartitionFilter)
      ensures reply.Ok? ==> NormalSchema(reply.table.schema)
    {
      if name !in storage {
        return NotFound;
      }
      var updated := storage[name];
      updated := updated.(friendlyName := table.friendlyName, description := table.description, schema := table.schema);
      if updated.external.Some? {
        updated := updated.(requirePartitionFilter := Some(IsTrue(table.requirePartitionFilter)));
      }
      NormalizedSchemaIsNormal(updated);
      storage := storage[name := Normalized(updated)];
      reply := Ok(Normalized(updated));
    }

    method UpdateTable(name: string, table: Table, inferred: Schema) returns (reply: Reply)
      modifies this
      ensures storage == Step(old(storage), Update(name, table, inferred))
      ensures reply == if name in old(storage) then Ok(storage[name]) else NotFound
      ensures reply.Ok? ==>
                var was := old(storage)[name];
                && name in storage && storage - {name} == old(storage) - {name}
                && reply.table.friendlyName == table.friendlyName && reply.table.description == table.description
                && reply.table.schema == NormalizeSchema(if inferred == None then table.schema else inferred)
                && reply.table.requirePartitionFilter == (if was.external == None then was.requirePartitionFilter
                                                          else if table.requirePartitionFilter == Some(true) then Some(true)
                                                          else Some(false))
                // everything else is the request's or kept
                && reply.table.expirationTime == table.expirationTime && reply.table.labels == table.labels
                && reply.table.constraints == table.constraints && reply.table.view == table.view
                && reply.table.external == (if was.external == None then None else table.external)
                && reply.table.timePartitioning == was.timePartitioning && reply.table.rest == was.rest
      ensures reply.Ok? ==> NormalSchema(reply.table.schema)
    {
      if name !in storage {
        return NotFound;
      }
      var updated := storage[name];
      updated := updated.(description := table.description, friendlyName := table.friendlyName, schema := table.schema);
      if updated.external.Some? {
        updated := updated.(requirePartitionFilter := Some(IsTrue(table.requirePartitionFilter)));
        updated := updated.(external := table.external);
      }
      updated := updated.(expirationTime := table.expirationTime, labels := table.labels, constraints := table.constraints);
      updated := updated.(view := table.view);
      if inferred.Some? {
        updated := updated.(schema := inferred);
      }
      NormalizedSchemaIsNormal(updated);
      storage := storage[name := Normalized(updated)];
      reply := Ok(Normalized(updated));
    }

    method GetTable(name: string) returns (reply: Reply)
      ensures reply.Ok? <==> Fetched(storage, name).Some?
      ensures if reply.Ok? then Fetched(storage, name) == Some(reply.table) && NormalSchema(reply.table.schema) else reply == NotFound
      // a stored table is returned as it is exactly when its schema is in normal form
      ensures reply.Ok? ==> (reply.table == storage[name] <==> NormalSchema(storage[name].schema))
    {
      if name !in storage {
        return NotFound;
      }
      var obj := storage[name];
      NormalizeNoOpIff(obj.schema);
      NormalizedSchemaIsNormal(obj);
      reply := Ok(Normalized(obj));
    }
  }
}
