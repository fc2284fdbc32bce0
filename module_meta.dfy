/** The seeding script's table of known modules. */
module ModuleMetaTable {
  /** `moduleMeta`: the proficiency of every module the planner knows. */
  const ModuleMeta: map<string, nat> := map[
      "OS_01" := 0, "OS_02" := 0, "OS_03" := 0, "OS_04" := 0, "OS_05" := 0]
    + map[
      "IS_01" := 0, "IS_02" := 0, "IS_03" := 0, "IS_04" := 0, "IS_05" := 0, "IS_06" := 0]
    + map[
      "STS_01" := 0, "STS_02" := 0, "STS_03" := 0, "STS_04" := 0, "STS_05" := 0]
    + map[
      "ID_01" := 0, "ID_02" := 0, "ID_03" := 0, "ID_04" := 0, "ID_05" := 0, "ID_06" := 0,
      "ID_08" := 0, "ID_09" := 0, "ID_10" := 0, "ID_12" := 0, "ID_13" := 0, "ID_16" := 0,
      "ID_17" := 0, "ID_19" := 0, "ID_20" := 0, "ID_25" := 0, "ID_26" := 0, "ID_27" := 0,
      "ID_28" := 0, "ID_29" := 0, "ID_30" := 0]
    + map[
      "PM_01" := 0, "PM_02" := 0, "PM_03" := 0, "PM_04" := 0, "PM_05" := 0, "PM_06" := 0,
      "PM_07" := 0, "PM_08" := 0, "PM_09" := 0, "PM_11" := 0, "PM_12" := 0, "PM_13" := 0,
      "PM_14" := 0, "PM_15" := 0, "PM_16" := 0, "PM_17" := 0, "PM_18" := 0, "PM_19" := 0,
      "PM_20" := 0, "PM_21" := 0, "PM_22" := 0, "PM_24" := 0, "PM_25" := 0, "PM_26" := 0,
      "PM_27" := 0, "PM_28" := 0]
    + map[
      "SE_01" := 0, "SE_02" := 0, "SE_03" := 2, "SE_04" := 3, "SE_05" := 1, "SE_06" := 1,
      "SE_07" := 2, "SE_08" := 1, "SE_09" := 3, "SE_10" := 1, "SE_19" := 1, "SE_35" := 4,
      "SE_41" := 0, "SE_45" := 2, "SE_46" := 2]
}
